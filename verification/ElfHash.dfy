/** The two symbol indexes of xhook/xh_elf.c against a plain scan of
    the symbol names. Chapter 5 of the System V gABI, section "Hash Table", defines the first. */
module ElfHash {
  import opened CString
  import opened CharSums
  import opened Bits
  import opened Options
  import opened Powers

  // ---------- a plain scan ----------

  /** The first symbol from lo on, below hi, that carries the name. */
  function Scan(names: seq<CStr>, symbol: CStr, lo: nat, hi: nat): (r: Option<nat>)
    requires lo <= hi <= |names|
    ensures r.Some? ==> lo <= r.value < hi && names[r.value] == symbol
    ensures r.Some? ==> forall i :: lo <= i < r.value ==> names[i] != symbol
    ensures r.None? ==> forall i :: lo <= i < hi ==> names[i] != symbol
    decreases hi - lo
  {
    if lo == hi then None
    else if names[lo] == symbol then Some(lo)
    else Scan(names, symbol, lo + 1, hi)
  }

  lemma ScanIs(names: seq<CStr>, symbol: CStr, lo: nat, hi: nat, i: nat)
    requires lo <= i < hi <= |names| && names[i] == symbol
    requires forall j :: lo <= j < i ==> names[j] != symbol
    ensures Scan(names, symbol, lo, hi) == Some(i)
  {
  }

  // ---------- the System V hash ----------

  const WORD: nat := 0x1_0000_0000
  const TOP_NIBBLE: nat := 0xf000_0000

  /** One round of the gABI's hash function, in 32 bits: h = (h << 4) + c, then the top
      nibble, when it is not zero, is folded back and cleared. */
  function GabiRound(h: nat, c: nat): nat {
    GabiFold((h * 16 + c) % WORD)
  }

  function GabiFold(x: nat): nat {
    var g := Bitwise(And, x, TOP_NIBBLE);
    var y := if g != 0 then Bitwise(Xor, x, ShiftRight(g, 24)) else x;
    Bitwise(And, y, Not(g, 32))
  }

  function GabiHash(name: CStr): nat {
    if name == [] then 0 else GabiRound(GabiHash(name[..|name| - 1]), name[|name| - 1])
  }

  lemma BitOfTopNibble(k: nat)
    ensures Bit(TOP_NIBBLE, k) <==> 28 <= k < 32
  {
    PowersOfWords();
    BitOfShiftLeft(15, 28, k);
    if k >= 28 {
      if k >= 32 { NoHighBit(15, 4, k - 28); }
      assert Bit(15, 0) && Bit(15, 1) && Bit(15, 2) && Bit(15, 3);
    }
  }

  /** What xh_elf_hash does to a word, bit by bit, */
  lemma HashFoldBits(x: nat, k: nat)
    requires x < WORD
    ensures var g := Bitwise(And, x, TOP_NIBBLE);
      Bit(Bitwise(Xor, Bitwise(Xor, x, g), ShiftRight(g, 24)), k) <==>
      k < 28 && (Bit(x, k) != (4 <= k < 8 && Bit(x, k + 24)))
  {
    var g := Bitwise(And, x, TOP_NIBBLE);
    BitOf(And, x, TOP_NIBBLE, k);
    BitOf(And, x, TOP_NIBBLE, k + 24);
    BitOfTopNibble(k);
    BitOfTopNibble(k + 24);
    BitOf(Xor, x, g, k);
    BitOfShiftRight(g, 24, k);
    BitOf(Xor, Bitwise(Xor, x, g), ShiftRight(g, 24), k);
    if k >= 32 { NoHighBitOfWord(x, k); }
  }

  /** and what the gABI does to it. */
  lemma GabiFoldBits(x: nat, k: nat)
    requires x < WORD
    ensures Bit(GabiFold(x), k) <==> k < 28 && (Bit(x, k) != (4 <= k < 8 && Bit(x, k + 24)))
  {
    var g := Bitwise(And, x, TOP_NIBBLE);
    var y := if g != 0 then Bitwise(Xor, x, ShiftRight(g, 24)) else x;
    BitOf(And, x, TOP_NIBBLE, k);
    BitOf(And, x, TOP_NIBBLE, k + 24);
    BitOfTopNibble(k);
    BitOfTopNibble(k + 24);
    BitOfShiftRight(g, 24, k);
    BitOf(Xor, x, ShiftRight(g, 24), k);
    BitOfZero(k + 24);
    BitOfNot(g, 32, k);
    BitOf(And, y, Not(g, 32), k);
    if k >= 32 { NoHighBitOfWord(x, k); }
  }

  lemma NoHighBitOfWord(x: nat, k: nat)
    requires x < WORD && k >= 32
    ensures !Bit(x, k)
  {
    PowersOfWords();
    NoHighBit(x, 32, k);
  }

  /** Folding without the test is the gABI's folding, and leaves 28 bits. */
  lemma FoldsAgree(x: nat)
    requires x < WORD
    ensures var g := Bitwise(And, x, TOP_NIBBLE);
      Bitwise(Xor, Bitwise(Xor, x, g), ShiftRight(g, 24)) == GabiFold(x)
    ensures GabiFold(x) < 0x1000_0000
  {
    hide GabiFold;
    var g := Bitwise(And, x, TOP_NIBBLE);
    var z := Bitwise(Xor, Bitwise(Xor, x, g), ShiftRight(g, 24));
    forall k: nat
      ensures Bit(z, k) == Bit(GabiFold(x), k)
      ensures k >= 28 ==> !Bit(GabiFold(x), k)
    {
      HashFoldBits(x, k);
      GabiFoldBits(x, k);
    }
    SameBits(z, GabiFold(x));
    PowersOfWords();
    if GabiFold(x) >= Pow2(28) {
      var k := HighBit(GabiFold(x), 28);
    }
  }

  /** One character more: the word 16 times as large plus the character, its top four bits folded into the
      second four and cleared. */
  lemma GabiHashBits(name: CStr, c: CChar, k: nat)
    ensures var x := (16 * GabiHash(name) + c) % 0x1_0000_0000;
      Bit(GabiHash(name + [c]), k) <==> k < 28 && (Bit(x, k) != (4 <= k < 8 && Bit(x, k + 24)))
  {
    hide GabiFold, Bit, GabiHash;
    GabiHashSnoc(name, c);
    GabiFoldBits((GabiHash(name) * 16 + c) % WORD, k);
  }

  lemma GabiHashSnoc(name: CStr, c: CChar)
    ensures GabiHash(name + [c]) == GabiFold((GabiHash(name) * 16 + c) % WORD) && GabiHash([]) == 0
  {
    hide GabiFold;
    assert (name + [c])[..|name|] == name;
  }

  lemma SmallFold(x: nat)
    requires x < 0x1000_0000
    ensures GabiFold(x) == x
  {
    hide GabiFold;
    PowersOfWords();
    forall k: nat ensures Bit(GabiFold(x), k) == Bit(x, k) {
      GabiFoldBits(x, k);
      if k >= 28 { NoHighBit(x, 28, k); }
      if 4 <= k < 8 { NoHighBit(x, 28, k + 24); }
    }
    SameBits(GabiFold(x), x);
  }

  lemma {:induction false} FewCharacters(name: CStr)
    requires forall i :: 0 <= i < |name| ==> name[i] < 128
    ensures 15 * Weigh(name, 16) <= 127 * (Power(16, |name|) - 1)
    ensures |name| <= 6 ==> Weigh(name, 16) < 0x1000_0000
  {
    hide Weigh;
    if name == [] {
      NoWeight();
    } else {
      WeighSnoc(name, 16);
      FewCharacters(name[..|name| - 1]);
    }
    SixteenToSix(|name|);
  }

  lemma {:induction false} SixteenToSix(n: nat)
    ensures n <= 6 ==> Power(16, n) == [1, 0x10, 0x100, 0x1000, 0x1_0000, 0x10_0000, 0x100_0000][n]
  {
    if 0 < n <= 6 { SixteenToSix(n - 1); }
  }

  /** As long as nothing is folded the hash is the characters as digits of 16; six characters below 128 fit. */
  lemma {:induction false} GabiHashIs(name: CStr)
    requires Weigh(name, 16) < 0x1000_0000
    ensures GabiHash(name) == Weigh(name, 16)
  {
    hide GabiFold, Weigh;
    if name == [] {
      NoWeight();
    } else {
      WeighSnoc(name, 16);
      GabiHashIs(name[..|name| - 1]);
      SmallFold(Weigh(name, 16));
    }
  }

  /** xh_elf_hash computes the gABI's function and stays within 28 bits after each character. */
  method Hash(name: CStr) returns (h: nat)
    ensures h == GabiHash(name) && h < 0x1000_0000
  {
    hide GabiFold, Bitwise, ShiftRight;
    h := 0;
    var i := 0;
    assert name[..0] == [];
    while i < |name|
      invariant i <= |name| && h == GabiHash(name[..i]) && h < 0x1000_0000
    {
      assert name[..i + 1][..i] == name[..i];
      h := (h * 16 + name[i]) % WORD;
      FoldsAgree(h);
      var g := Bitwise(And, h, TOP_NIBBLE);
      h := Bitwise(Xor, h, g);
      h := Bitwise(Xor, h, ShiftRight(g, 24));
      i := i + 1;
    }
    assert name[..i] == name;
  }

  /** names[i] is the string that symtab[i].st_name points at. */
  datatype HashTable = HashTable(bucket: seq<nat>, chain: seq<nat>, names: seq<CStr>) {
    predicate BucketOf(symbol: CStr, b: nat)
      requires bucket != []
    {
      b == GabiHash(symbol) % |bucket|
    }

    /** Following the chain from i visits exactly these symbols. */
    predicate Visits(i: nat, list: seq<nat>)
      decreases |list|
    {
      if list == [] then i == 0
      else i == list[0] && 0 < i < |names| == |chain| && Visits(chain[i], list[1..])
    }

    /** Each bucket's chain holds the symbols whose name hashes there; symbol 0 is STN_UNDEF. */
    predicate WellFormed(lists: seq<seq<nat>>) {
      && bucket != [] && |lists| == |bucket| && |chain| == |names|
      && (forall b :: 0 <= b < |bucket| ==> Visits(bucket[b], lists[b]))
      && (forall b, i :: 0 <= b < |lists| && 0 < i < |names| ==> (i in lists[b] <==> BucketOf(names[i], b)))
    }

    /** xh_elf_hash_lookup. */
    method Lookup(symbol: CStr, ghost lists: seq<seq<nat>>) returns (symidx: Option<nat>)
      requires WellFormed(lists)
      ensures symidx.Some? ==> 0 < symidx.value < |names| && names[symidx.value] == symbol
      ensures symidx.Some? <==> exists i :: 0 < i < |names| && names[i] == symbol
    {
      var hash := Hash(symbol);
      var b := hash % |bucket|;
      var i := bucket[b];
      ghost var list := lists[b];
      while i != 0
        invariant Visits(i, list)
        invariant forall j :: 0 < j < |names| && names[j] == symbol ==> j in list
        decreases |list|
      {
        StrcmpZero(symbol, names[i]);
        if Strcmp(symbol, names[i]) == 0 { return Some(i); }
        assert forall j :: j in list ==> j == i || j in list[1..];
        i, list := chain[i], list[1..];
      }
      return None;
    }
  }

  // ---------- the GNU hash ----------

  /** 33 times the hash so far plus the character, in 32 bits. */
  function GnuRound(h: nat, c: nat): (r: nat)
    ensures r < WORD
  {
    (h * 33 + c) % WORD
  }

  function GnuHash(name: CStr): (h: nat)
    ensures h < WORD
  {
    if name == [] then 5381 else GnuRound(GnuHash(name[..|name| - 1]), name[|name| - 1])
  }

  /** In closed form. */
  lemma {:induction false} GnuHashIs(name: CStr)
    ensures GnuHash(name) == (5381 * Power(33, |name|) + Weigh(name, 33)) % 0x1_0000_0000
  {
    hide Weigh;
    if name == [] {
      NoWeight();
    } else {
      var init := name[..|name| - 1];
      GnuHashIs(init);
      WeighSnoc(name, 33);
      RoundOfSum(5381 * Power(33, |init|) + Weigh(init, 33), name[|init|]);
    }
  }

  lemma NoWeight()
    ensures Weigh([], 33) == 0 && Weigh([], 16) == 0
  {
  }

  lemma RoundOfSum(x: nat, c: nat)
    ensures GnuRound(x % WORD, c) == (x * 33 + c) % WORD
  {
    ModEqual(x * 33 + c, x % WORD * 33 + c, x / WORD * 33, WORD);
  }

  lemma ShiftAndAdd(h: nat, c: nat)
    ensures (h + (h * 32 % WORD + c) % WORD) % WORD == GnuRound(h, c)
  {
    ModAddLeft(h * 32, c, WORD);
    ModAddLeft(h * 32 + c, h, WORD);
  }

  /** xh_elf_gnu_hash. */
  method ComputeGnuHash(name: CStr) returns (h: nat)
    ensures h == GnuHash(name)
    ensures h == (5381 * Power(33, |name|) + Weigh(name, 33)) % 0x1_0000_0000
  {
    hide GnuRound, Power, Weigh;
    h := 5381;
    var i := 0;
    assert name[..0] == [];
    while i < |name|
      invariant i <= |name| && h == GnuHash(name[..i])
    {
      assert name[..i + 1][..i] == name[..i];
      ShiftAndAdd(h, name[i]);
      h := (h + (h * 32 % WORD + name[i]) % WORD) % WORD;
      i := i + 1;
    }
    assert name[..i] == name;
    GnuHashIs(name);
  }

  function Bucket(symbol: CStr, buckets: nat): (b: nat)
    requires buckets > 0
    ensures b < buckets
  {
    GnuHash(symbol) % buckets
  }

  /** Bits are the bits of a word of the target: 32 or 64. */
  datatype GnuTable = GnuTable(bits: nat, bucket: seq<nat>, chain: seq<nat>, bloom: seq<nat>, bloomShift: nat,
                               symoffset: nat, names: seq<CStr>)
  {
    function BucketOf(symbol: CStr): (b: nat)
      requires bucket != []
      ensures b < |bucket|
    {
      Bucket(symbol, |bucket|)
    }

    /** The two bits of the Bloom filter that a hash stands for, as a mask. */
    function Mask(hash: nat): nat
      requires bits > 0
    {
      Bitwise(Or, Pow2(hash % bits), Pow2(ShiftRight(hash, bloomShift) % bits))
    }

    function BloomWord(hash: nat): nat
      requires bits > 0 && bloom != []
    {
      bloom[hash / bits % |bloom|]
    }

    /** No symbol of the table is filtered out. */
    predicate Admits()
      requires bits > 0 && bloom != []
    {
      forall i :: symoffset <= i < |names| ==>
        var h := GnuHash(names[i]);
        Bit(BloomWord(h), h % bits) && Bit(BloomWord(h), ShiftRight(h, bloomShift) % bits)
    }

    predicate LastOfBucket(i: nat)
      requires bucket != [] && i < |names|
    {
      i == |names| - 1 || BucketOf(names[i + 1]) != BucketOf(names[i])
    }

    /** Symbols from symoffset on are grouped by bucket; a chain word is the symbol's hash,
        with the low bit saying whether the symbol is its bucket's last. */
    predicate Grouped()
      requires bucket != []
    {
      forall i, j :: symoffset <= i < j < |names| ==> BucketOf(names[i]) <= BucketOf(names[j])
    }

    /** A bucket names its first symbol, or nothing from symoffset on when it is empty. */
    predicate Starts()
      requires bucket != []
    {
      forall b :: 0 <= b < |bucket| ==>
        if bucket[b] < symoffset then forall i :: symoffset <= i < |names| ==> BucketOf(names[i]) != b
        else
          && bucket[b] < |names| && BucketOf(names[bucket[b]]) == b
          && forall i :: symoffset <= i < bucket[b] ==> BucketOf(names[i]) != b
    }

    predicate Chains()
      requires bucket != [] && symoffset <= |names| == symoffset + |chain|
    {
      forall i :: symoffset <= i < |names| ==>
        && chain[i - symoffset] / 2 == GnuHash(names[i]) / 2
        && (chain[i - symoffset] % 2 == 1 <==> LastOfBucket(i))
    }

    predicate WellFormed() {
      && bits > 0 && bucket != [] && bloom != [] && 0 < symoffset <= |names| == symoffset + |chain|
      && Grouped() && Starts() && Chains() && Admits()
    }

    /** The Bloom filter gives no false negatives. */
    lemma NotFiltered(symbol: CStr, i: nat)
      requires WellFormed() && symoffset <= i < |names| && names[i] == symbol
      ensures Bitwise(And, BloomWord(GnuHash(symbol)), Mask(GnuHash(symbol))) == Mask(GnuHash(symbol))
    {
      hide GnuHash, Bitwise;
      var h := GnuHash(symbol);
      MaskTest(BloomWord(h), h % bits, ShiftRight(h, bloomShift) % bits);
    }

    lemma ChainStart(symbol: CStr, b: nat)
      requires WellFormed() && b == BucketOf(symbol)
      ensures if bucket[b] < symoffset then forall i :: symoffset <= i < |names| ==> names[i] != symbol
        else bucket[b] < |names| && BucketOf(names[bucket[b]]) == b
             && forall i :: symoffset <= i < bucket[b] ==> names[i] != symbol
    {
      hide BucketOf, GnuHash, Grouped, Chains, Admits;
    }

    lemma ChainStep(symbol: CStr, i: nat)
      requires WellFormed() && symoffset <= i < |names| && BucketOf(names[i]) == BucketOf(symbol)
      ensures chain[i - symoffset] / 2 == GnuHash(names[i]) / 2
      ensures if chain[i - symoffset] % 2 == 1 then forall j :: i < j < |names| ==> names[j] != symbol
        else i + 1 < |names| && BucketOf(names[i + 1]) == BucketOf(symbol)
    {
      hide BucketOf, GnuHash, Starts, Admits;
      if LastOfBucket(i) {
        forall j | i < j < |names| ensures names[j] != symbol {
          assert BucketOf(names[i]) <= BucketOf(names[i + 1]);
          assert j > i + 1 ==> BucketOf(names[i + 1]) <= BucketOf(names[j]);
        }
      }
    }

    /** xh_elf_gnu_hash_lookup_def finds the first defined symbol of the name. */
    method LookupDefined(symbol: CStr) returns (symidx: Option<nat>)
      requires WellFormed()
      ensures symidx == Scan(names, symbol, symoffset, |names|)
    {
      hide Grouped, Starts, Chains, Admits, Bitwise, GnuHash, Pow2, ShiftRight;
      var hash := ComputeGnuHash(symbol);
      var word := bloom[hash / bits % |bloom|];
      var mask := Bitwise(Or, Pow2(hash % bits), Pow2(ShiftRight(hash, bloomShift) % bits));
      if Bitwise(And, word, mask) != mask {
        assert forall i :: symoffset <= i < |names| ==> names[i] != symbol by {
          forall i | symoffset <= i < |names| && names[i] == symbol ensures false { NotFiltered(symbol, i); }
        }
        return None;
      }
      var b := hash % |bucket|;
      ChainStart(symbol, b);
      var i := bucket[b];
      if i < symoffset { return None; }
      while true
        invariant symoffset <= i < |names| && BucketOf(names[i]) == b
        invariant forall j :: symoffset <= j < i ==> names[j] != symbol
        decreases |names| - i
      {
        hide Scan;
        ChainStep(symbol, i);
        var symhash := chain[i - symoffset];
        StrcmpZero(symbol, names[i]);
        if hash / 2 == symhash / 2 && Strcmp(symbol, names[i]) == 0 {
          ScanIs(names, symbol, symoffset, |names|, i);
          return Some(i);
        }
        if symhash % 2 == 1 { break; }
        i := i + 1;
      }
      return None;
    }

    /** xh_elf_gnu_hash_lookup_undef. */
    method LookupUndefined(symbol: CStr) returns (symidx: Option<nat>)
      requires symoffset <= |names|
      ensures symidx == Scan(names, symbol, 0, symoffset)
    {
      var i := 0;
      while i < symoffset
        invariant i <= symoffset && forall j :: 0 <= j < i ==> names[j] != symbol
      {
        StrcmpZero(names[i], symbol);
        if Strcmp(names[i], symbol) == 0 {
          ScanIs(names, symbol, 0, symoffset, i);
          return Some(i);
        }
        i := i + 1;
      }
      return None;
    }

    /** xh_elf_gnu_hash_lookup finds a symbol exactly when a scan of all of them would, and
        prefers the defined one. */
    method Lookup(symbol: CStr) returns (symidx: Option<nat>)
      requires WellFormed()
      ensures symidx.Some? <==> Scan(names, symbol, 0, |names|).Some?
      ensures symidx ==
        if Scan(names, symbol, symoffset, |names|).Some? then Scan(names, symbol, symoffset, |names|)
        else Scan(names, symbol, 0, symoffset)
    {
      symidx := LookupDefined(symbol);
      if symidx != None { return; }
      symidx := LookupUndefined(symbol);
    }
  }

  // ---------- writing a GNU table ----------

  /** The filter that lets a list of hashes through: each one sets its two bits. */
  function Filter(bits: nat, shift: nat, size: nat, hashes: seq<nat>): (bloom: seq<nat>)
    requires bits > 0 && size > 0
    ensures |bloom| == size
    decreases |hashes|
  {
    if hashes == [] then seq(size, _ => 0)
    else
      var rest := Filter(bits, shift, size, hashes[1..]);
      var w := hashes[0] / bits % size;
      var mask := Bitwise(Or, Pow2(hashes[0] % bits), Pow2(ShiftRight(hashes[0], shift) % bits));
      rest[w := Bitwise(Or, rest[w], mask)]
  }

  lemma {:induction false} FilterAdmits(bits: nat, shift: nat, size: nat, hashes: seq<nat>, j: nat)
    requires bits > 0 && size > 0 && j < |hashes|
    ensures var word := Filter(bits, shift, size, hashes)[hashes[j] / bits % size];
      Bit(word, hashes[j] % bits) && Bit(word, ShiftRight(hashes[j], shift) % bits)
    decreases |hashes|
  {
    hide Bit, Bitwise, Pow2, ShiftRight;
    var h := hashes[0];
    var a, b := h % bits, ShiftRight(h, shift) % bits;
    var mask := Bitwise(Or, Pow2(a), Pow2(b));
    var word := Filter(bits, shift, size, hashes[1..])[h / bits % size];
    forall k: nat
      ensures Bit(Bitwise(Or, word, mask), k) <==> Bit(word, k) || k == a || k == b
    {
      BitOf(Or, word, mask, k);
      BitOf(Or, Pow2(a), Pow2(b), k);
      BitOfPow2(a, k);
      BitOfPow2(b, k);
    }
    if j > 0 { FilterAdmits(bits, shift, size, hashes[1..], j - 1); }
  }

  function Hashes(names: seq<CStr>): (hashes: seq<nat>)
    ensures |hashes| == |names| && forall k :: 0 <= k < |names| ==> hashes[k] == GnuHash(names[k])
  {
    if names == [] then [] else [GnuHash(names[0])] + Hashes(names[1..])
  }

  function FirstInBucket(names: seq<CStr>, buckets: nat, b: nat, lo: nat): (i: nat)
    requires buckets > 0 && 0 < lo <= |names|
    ensures i == 0 ==> forall j :: lo <= j < |names| ==> Bucket(names[j], buckets) != b
    ensures i != 0 ==>
      lo <= i < |names| && Bucket(names[i], buckets) == b && forall j :: lo <= j < i ==> Bucket(names[j], buckets) != b
    decreases |names| - lo
  {
    if lo == |names| then 0
    else if Bucket(names[lo], buckets) == b then lo
    else FirstInBucket(names, buckets, b, lo + 1)
  }

  function ChainWord(names: seq<CStr>, buckets: nat, i: nat): nat
    requires buckets > 0 && i < |names|
  {
    GnuHash(names[i]) / 2 * 2
    + if i == |names| - 1 || Bucket(names[i + 1], buckets) != Bucket(names[i], buckets) then 1 else 0
  }

  lemma ChainWordParts(names: seq<CStr>, buckets: nat, i: nat)
    requires buckets > 0 && i < |names|
    ensures ChainWord(names, buckets, i) / 2 == GnuHash(names[i]) / 2
    ensures ChainWord(names, buckets, i) % 2 == 1 <==>
      i == |names| - 1 || Bucket(names[i + 1], buckets) != Bucket(names[i], buckets)
  {
    hide GnuHash, Bucket;
  }

  /** Filter, buckets and chains for symbols that are already grouped by bucket. */
  function Build(bits: nat, buckets: nat, bloomSize: nat, shift: nat, symoffset: nat, names: seq<CStr>): GnuTable
    requires bits > 0 && buckets > 0 && bloomSize > 0 && 0 < symoffset <= |names|
  {
    GnuTable(bits,
             seq<nat>(buckets, b requires 0 <= b < buckets => FirstInBucket(names, buckets, b, symoffset)),
             seq<nat>(|names| - symoffset, k requires 0 <= k < |names| - symoffset =>
                      ChainWord(names, buckets, symoffset + k)),
             Filter(bits, shift, bloomSize, Hashes(names[symoffset..])),
             shift, symoffset, names)
  }

  /** Every grouped list of symbols has a table, and Lookup searches it correctly. */
  lemma BuildWellFormed(bits: nat, buckets: nat, bloomSize: nat, shift: nat, symoffset: nat, names: seq<CStr>)
    requires bits > 0 && buckets > 0 && bloomSize > 0 && 0 < symoffset <= |names|
    requires forall i, j :: symoffset <= i < j < |names| ==> Bucket(names[i], buckets) <= Bucket(names[j], buckets)
    ensures Build(bits, buckets, bloomSize, shift, symoffset, names).WellFormed()
  {
    hide GnuHash, Bucket, Filter, FirstInBucket, ChainWord, GnuTable.Admits, GnuTable.Starts, GnuTable.Chains;
    var t := Build(bits, buckets, bloomSize, shift, symoffset, names);
    BuildAdmits(bits, buckets, bloomSize, shift, symoffset, names);
    BuildStarts(bits, buckets, bloomSize, shift, symoffset, names);
    BuildChains(bits, buckets, bloomSize, shift, symoffset, names);
    assert t.Grouped();
  }

  lemma BuildStarts(bits: nat, buckets: nat, bloomSize: nat, shift: nat, symoffset: nat, names: seq<CStr>)
    requires bits > 0 && buckets > 0 && bloomSize > 0 && 0 < symoffset <= |names|
    ensures Build(bits, buckets, bloomSize, shift, symoffset, names).Starts()
  {
    hide GnuHash, Bucket, Filter, FirstInBucket, ChainWord;
  }

  lemma BuildChains(bits: nat, buckets: nat, bloomSize: nat, shift: nat, symoffset: nat, names: seq<CStr>)
    requires bits > 0 && buckets > 0 && bloomSize > 0 && 0 < symoffset <= |names|
    ensures Build(bits, buckets, bloomSize, shift, symoffset, names).Chains()
  {
    hide GnuHash, Bucket, Filter, FirstInBucket, ChainWord;
    var t := Build(bits, buckets, bloomSize, shift, symoffset, names);
    BuildChainWords(bits, buckets, bloomSize, shift, symoffset, names);
    forall i | symoffset <= i < |names|
      ensures t.chain[i - symoffset] / 2 == GnuHash(names[i]) / 2
      ensures t.chain[i - symoffset] % 2 == 1 <==> t.LastOfBucket(i)
    {
      hide Build;
      ChainWordParts(names, buckets, i);
    }
  }

  lemma BuildChainWords(bits: nat, buckets: nat, bloomSize: nat, shift: nat, symoffset: nat, names: seq<CStr>)
    requires bits > 0 && buckets > 0 && bloomSize > 0 && 0 < symoffset <= |names|
    ensures var t := Build(bits, buckets, bloomSize, shift, symoffset, names);
      && |t.bucket| == buckets && t.symoffset == symoffset && t.names == names
      && |names| == symoffset + |t.chain|
      && forall i :: symoffset <= i < |names| ==> t.chain[i - symoffset] == ChainWord(names, buckets, i)
  {
    hide GnuHash, Bucket, Filter, FirstInBucket, ChainWord;
  }

  lemma BuildAdmits(bits: nat, buckets: nat, bloomSize: nat, shift: nat, symoffset: nat, names: seq<CStr>)
    requires bits > 0 && buckets > 0 && bloomSize > 0 && 0 < symoffset <= |names|
    ensures Build(bits, buckets, bloomSize, shift, symoffset, names).Admits()
  {
    hide GnuHash, Bucket, Filter, FirstInBucket, ChainWord, Bit, ShiftRight;
    var t := Build(bits, buckets, bloomSize, shift, symoffset, names);
    var hashes := Hashes(names[symoffset..]);
    forall i | symoffset <= i < |names|
      ensures var h := GnuHash(names[i]);
        Bit(t.BloomWord(h), h % bits) && Bit(t.BloomWord(h), ShiftRight(h, shift) % bits)
    {
      FilterAdmits(bits, shift, bloomSize, hashes, i - symoffset);
      assert names[symoffset..][i - symoffset] == names[i];
    }
  }
}
