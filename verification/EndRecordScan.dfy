/** The backwards search for the end record, run on a file that ends with one. */
module EndRecordScan {
  import opened Bytes
  import opened Options
  import opened ZipFormat
  import opened ZipParse

  /** The record init writes; the counts are 16 bits wide. */
  function EndRecord(n: nat, size: nat, offset: nat): EndOfCentralDir {
    EndOfCentralDir(0, 0, n % 0x1_0000, n % 0x1_0000, size, offset, [])
  }

  lemma SignatureBytes(s: Bytes, i: nat)
    requires i + 4 <= |s|
    ensures SignatureAt(s, i) <==> s[i] == 0x50 && s[i + 1] == 0x4b && s[i + 2] == 0x05 && s[i + 3] == 0x06
  {
    var t := s[i..i + 4];
    PutGet(4, t);
    SignatureLe();
    if t == [0x50, 0x4b, 0x05, 0x06] {
      GetPut(4, EOCD_SIGNATURE);
    }
  }

  lemma SignatureLe()
    ensures Le(EOCD_SIGNATURE, 4) == [0x50, 0x4b, 0x05, 0x06]
  {
    LeFour(EOCD_SIGNATURE);
  }

  lemma PairAt(s: Bytes, i: nat, v: nat)
    requires i + 2 <= |s| && s[i..i + 2] == Le(v, 2)
    ensures s[i] == v % 256 && s[i + 1] == v / 256 % 256
  {
    LeTwo(v);
    assert s[i] == s[i..i + 2][0] && s[i + 1] == s[i..i + 2][1];
  }

  lemma QuadAt(s: Bytes, i: nat, v: nat)
    requires i + 4 <= |s| && s[i..i + 4] == Le(v, 4)
    ensures s[i] == v % 256 && s[i + 1] == v / 256 % 256
    ensures s[i + 2] == v / 256 / 256 % 256 && s[i + 3] == v / 256 / 256 / 256 % 256
  {
    LeFour(v);
    var t := s[i..i + 4];
    assert s[i] == t[0] && s[i + 1] == t[1] && s[i + 2] == t[2] && s[i + 3] == t[3];
  }

  /** The record field by field. */
  lemma EndFields(n: nat, size: nat, offset: nat, w: Bytes)
    requires w == EndRecord(n, size, offset).Written()
    ensures |w| == EOCD_LEN && w[0..4] == Le(EOCD_SIGNATURE, 4)
    ensures w[4..6] == w[6..8] == Le(0, 2) && w[8..10] == w[10..12] == Le(n % 0x1_0000, 2)
    ensures w[12..16] == Le(size, 4) && w[16..20] == Le(offset, 4) && w[20..22] == Le(0, 2)
  {
    hide Le, Size, PutAll;
    var l, f := EocdLayout(), EndRecord(n, size, offset).Fields();
    EocdOffsets();
    EocdSize();
    assert w == PutAll(l, f);
    PutAt(l, f, 0); PutAt(l, f, 1); PutAt(l, f, 2); PutAt(l, f, 3);
    PutAt(l, f, 4); PutAt(l, f, 5); PutAt(l, f, 6); PutAt(l, f, 7);
  }

  /** The 22 bytes of the record, one by one. */
  lemma EndBytes(n: nat, size: nat, offset: nat, w: Bytes)
    requires n < 0x1_0000 && w == EndRecord(n, size, offset).Written()
    ensures |w| == EOCD_LEN
    ensures w[0] == 0x50 && w[1] == 0x4b && w[2] == 0x05 && w[3] == 0x06
    ensures w[4] == w[5] == w[6] == w[7] == 0
    ensures w[8] == w[10] == n % 256 && w[9] == w[11] == n / 256 % 256
    ensures w[12] == size % 256 && w[13] == size / 256 % 256
    ensures w[14] == size / 256 / 256 % 256 && w[15] == size / 256 / 256 / 256 % 256
    ensures w[16] == offset % 256 && w[17] == offset / 256 % 256
    ensures w[18] == offset / 256 / 256 % 256 && w[19] == offset / 256 / 256 / 256 % 256
    ensures w[20] == w[21] == 0
  {
    hide Le, EndOfCentralDir.Written;
    EndFields(n, size, offset, w);
    StartSpelled(n, size, offset, w);
    PairAt(w, 4, 0);
    PairAt(w, 6, 0);
    PairAt(w, 8, n);
    PairAt(w, 10, n);
    QuadAt(w, 12, size);
    QuadAt(w, 16, offset);
    PairAt(w, 20, 0);
  }

  /** The numbers in the record spell the signature a second time. */
  predicate FalseSignature(n: nat, size: nat, offset: nat) {
    || (n == 0x4b50 && size % 0x1_0000 == 0x0605)
    || (n / 0x100 == 0x50 && size % 0x100_0000 == 0x06_054b)
    || size == 0x0605_4b50
    || (size / 0x100 == 0x05_4b50 && offset % 0x100 == 0x06)
    || (size / 0x1_0000 == 0x4b50 && offset % 0x1_0000 == 0x0605)
    || (size / 0x100_0000 == 0x50 && offset % 0x100_0000 == 0x06_054b)
    || offset == 0x0605_4b50
  }

  predicate SpelledAt(w: Bytes, j: nat)
    requires j + 4 <= |w|
  {
    w[j] == 0x50 && w[j + 1] == 0x4b && w[j + 2] == 0x05 && w[j + 3] == 0x06
  }

  /** Among the 18 later places only those seven can spell it. */
  lemma SpelledWhere(n: nat, size: nat, offset: nat, w: Bytes)
    requires n < 0x1_0000 && w == EndRecord(n, size, offset).Written()
    ensures |w| == EOCD_LEN
    ensures forall j :: 1 <= j <= 18 && SpelledAt(w, j) ==> 10 <= j <= 16
  {
    hide EndOfCentralDir.Written;
    EndBytes(n, size, offset, w);
    forall j | 1 <= j <= 18 && SpelledAt(w, j) ensures 10 <= j <= 16 {
    }
  }

  lemma SpelledIs(n: nat, size: nat, offset: nat, w: Bytes)
    requires n < 0x1_0000 && size < 0x8000_0000 && offset < 0x8000_0000
    requires w == EndRecord(n, size, offset).Written()
    ensures |w| == EOCD_LEN
    ensures FalseSignature(n, size, offset) <==>
      SpelledAt(w, 10) || SpelledAt(w, 11) || SpelledAt(w, 12) || SpelledAt(w, 13) || SpelledAt(w, 14)
      || SpelledAt(w, 15) || SpelledAt(w, 16)
  {
    hide EndOfCentralDir.Written;
    EndBytes(n, size, offset, w);
    Digits(size, w[12], w[13], w[14], w[15]);
    Digits(offset, w[16], w[17], w[18], w[19]);
  }

  /** A 32-bit number and its four bytes. */
  lemma Digits(v: nat, a: Byte, b: Byte, c: Byte, d: Byte)
    requires v < 0x1_0000_0000
    requires a == v % 256 && b == v / 256 % 256 && c == v / 256 / 256 % 256 && d == v / 256 / 256 / 256 % 256
    ensures v == a + 0x100 * b + 0x1_0000 * c + 0x100_0000 * d
    ensures v / 0x100 == b + 0x100 * c + 0x1_0000 * d && v % 0x100 == a
    ensures v / 0x1_0000 == c + 0x100 * d && v % 0x1_0000 == a + 0x100 * b
    ensures v / 0x100_0000 == d && v % 0x100_0000 == a + 0x100 * b + 0x1_0000 * c
  {
  }

  /** A file that ends with the record: the search finds the record unless the signature is
      spelled again, and then it finds the later place and gives up. */
  lemma ScanFinds(v: Bytes, n: nat, size: nat, offset: nat)
    requires size < 0x8000_0000 && offset < 0x8000_0000 && |v| >= EOCD_LEN
    requires v[|v| - EOCD_LEN..] == EndRecord(n, size, offset).Written()
    ensures FindEocd(v) ==
      if FalseSignature(n % 0x1_0000, size, offset) then None else Some(EndRecord(n, size, offset))
  {
    hide EndOfCentralDir.Written, ReadEocd, SignatureAt, FindSignature, FalseSignature, SpelledAt, EndRecord;
    var w, buf := EndRecord(n, size, offset).Written(), Tail(v);
    var b := |buf| - EOCD_LEN;
    assert EndRecord(n, size, offset) == EndRecord(n % 0x1_0000, size, offset) by { SameRecord(n, size, offset); }
    TailEnds(v, w);
    SpelledWhere(n % 0x1_0000, size, offset, w);
    SpelledIs(n % 0x1_0000, size, offset, w);
    forall j | 0 <= j <= 18 ensures SignatureAt(buf, b + j) <==> SpelledAt(w, j) {
      SignatureBytes(buf, b + j);
      SpelledMeans(buf, b, w, j);
    }
    var r := FindSignature(buf, |buf| - 4);
    StartSpelled(n % 0x1_0000, size, offset, w);
    assert SignatureAt(buf, b + 0);
    assert SignatureAt(buf, b + (r - b)) && SpelledAt(w, r - b);
    if FalseSignature(n % 0x1_0000, size, offset) {
      var j :| 10 <= j <= 16 && SpelledAt(w, j);
      assert SignatureAt(buf, b + j);
      TooShort(buf[r..]);
    } else {
      FoundRecord(n, size, offset);
      assert w + [] == w && buf[b..] == w;
    }
  }

  lemma SameRecord(n: nat, size: nat, offset: nat)
    ensures EndRecord(n, size, offset) == EndRecord(n % 0x1_0000, size, offset)
  {
  }

  lemma TailEnds(v: Bytes, w: Bytes)
    requires |w| == EOCD_LEN <= |v| && v[|v| - EOCD_LEN..] == w
    ensures |Tail(v)| >= EOCD_LEN && Tail(v)[|Tail(v)| - EOCD_LEN..] == w
  {
  }

  lemma SpelledMeans(buf: Bytes, b: nat, w: Bytes, j: nat)
    requires b + |w| == |buf| && buf[b..] == w && j + 4 <= |w|
    ensures SpelledAt(w, j) <==>
      buf[b + j] == 0x50 && buf[b + j + 1] == 0x4b && buf[b + j + 2] == 0x05 && buf[b + j + 3] == 0x06
  {
    assert w[j] == buf[b + j] && w[j + 1] == buf[b + j + 1] && w[j + 2] == buf[b + j + 2] && w[j + 3] == buf[b + j + 3];
  }

  lemma StartSpelled(n: nat, size: nat, offset: nat, w: Bytes)
    requires w == EndRecord(n, size, offset).Written()
    ensures |w| == EOCD_LEN && SpelledAt(w, 0)
  {
    hide Le, EndOfCentralDir.Written;
    EndFields(n, size, offset, w);
    SignatureLe();
    assert w[0] == w[0..4][0] && w[1] == w[0..4][1] && w[2] == w[0..4][2] && w[3] == w[0..4][3];
  }

  lemma TooShort(s: Bytes)
    requires |s| < EOCD_LEN
    ensures ReadEocd(s) == None
  {
  }

  lemma FoundRecord(n: nat, size: nat, offset: nat)
    requires size < 0x8000_0000 && offset < 0x8000_0000
    ensures ReadEocd(EndRecord(n, size, offset).Written() + []) == Some(EndRecord(n, size, offset))
  {
    hide EndOfCentralDir.Written, ReadEocd, Size;
    EocdSize();
    var e, l := EndRecord(n, size, offset), EocdLayout();
    forall i | 0 <= i < |l| ensures FieldOk(l[i], e.Fields()[i]) {}
    ReadWrittenEocd(e, []);
  }
}
