/** Time-sortable identifiers: a prefix and 26 characters of base32 over 16 bytes. */
module Ids {
  import opened Clock
  import opened Numerals
  import opened Orders

  /** base32 without I, L, O and U: the d-th character of "0123456789ABCDEFGHJKMNPQRSTVWXYZ". */
  function Symbol(d: int): char
    requires 0 <= d < 32
  {
    if d < 10 then (d + 48) as char
    else if d < 18 then (d + 55) as char
    else if d < 20 then (d + 56) as char
    else if d < 22 then (d + 57) as char
    else if d < 27 then (d + 58) as char
    else (d + 59) as char
  }

  ghost predicate InAlphabet(c: char) {
    exists d :: 0 <= d < 32 && Symbol(d) == c
  }
  const LENGTH := 26

  const NUDGE := "n_"

  // ----- The coding: section 6 of RFC 4648 over this alphabet, without padding -----

  /** How many characters n bytes take: five bits each, rounded up. */
  function EncodedLength(n: nat): nat {
    (8 * n + 4) / 5
  }

  /** The zero bits that fill the last character. */
  function FillBits(n: nat): (bits: nat)
    ensures bits < 5
  {
    5 * EncodedLength(n) - 8 * n
  }

  /** A value with that many zero bits written after it. */
  function Fill(v: int, bits: nat): int {
    if bits == 0 then v else 2 * Fill(v, bits - 1)
  }

  function Drop(v: int, bits: nat): int
    decreases bits
  {
    if bits == 0 then v else Drop(v / 2, bits - 1)
  }

  function Symbols(ds: seq<int>): string
    requires InBase(ds, Char32)
  {
    seq(|ds|, i requires 0 <= i < |ds| => Symbol(ds[i]))
  }

  /** The bytes as one bit string, zero-filled on the right, cut into characters of five bits. */
  function Encode(bytes: seq<int>): (s: string)
    ensures |s| == EncodedLength(|bytes|)
  {
    Symbols(Digits(Fill(Value(bytes, Byte), FillBits(|bytes|)), Char32, EncodedLength(|bytes|)))
  }

  function IndexFrom(c: char, i: nat): (index: Option<nat>)
    requires i <= 32
    ensures index.Some? ==> i <= index.value < 32 && Symbol(index.value) == c
    ensures index.None? ==> forall j :: i <= j < 32 ==> Symbol(j) != c
    decreases 32 - i
  {
    if i == 32 then None else if Symbol(i) == c then Some(i) else IndexFrom(c, i + 1)
  }

  /** The digits a text stands for. Line breaks are skipped, as the decoder the program uses does; any
      other character outside the alphabet spoils the text. */
  function Read(s: string): (ds: Option<seq<int>>)
    ensures ds.Some? ==> InBase(ds.value, Char32)
  {
    if |s| == 0 then Some([])
    else
      var front, c := Read(s[..|s| - 1]), s[|s| - 1];
      if front.None? then None
      else if c == '\r' || c == '\n' then front
      else
        var index := IndexFrom(c, 0);
        if index.None? then None else Some(front.value + [index.value])
  }

  function Decode(s: string): Option<seq<int>> {
    var ds := Read(s);
    if ds.None? then None
    else
      var n := 5 * |ds.value| / 8;
      Some(Digits(Drop(Value(ds.value, Char32), 5 * |ds.value| - 8 * n), Byte, n))
  }

  // ----- Identifiers -----

  function Millis(t: Instant): int {
    t / 1_000_000
  }

  /** Six bytes of big-endian milliseconds, then ten random ones. */
  function Layout(t: Instant, random: seq<int>): seq<int> {
    Digits(Millis(t), Byte, 6) + random
  }

  function IdAt(prefix: string, t: Instant, random: seq<int>): string {
    prefix + Encode(Layout(t, random))
  }

  predicate Valid(prefix: string, s: string) {
    && prefix <= s
    && |s| == |prefix| + LENGTH
    && Decode(s[|prefix|..]).Some?
  }

  method NewAt(prefix: string, t: Instant, random: seq<int>) returns (id: string)
    requires |random| == 10 && InBase(random, Byte)
    ensures id == IdAt(prefix, t, random)
  {
    var ms := BigEndian64(Millis(t));
    var b := new int[16];
    FillIn(b, ms, random);
    LowDigits(Millis(t), 6, 2);
    id := prefix + Encode(b[..]);
  }

  /** The low six of eight bytes, then the random ones, written into place. */
  method FillIn(b: array<int>, ms: seq<int>, random: seq<int>)
    requires b.Length == 16 && |ms| == 8 && |random| == 10
    modifies b
    ensures b[..] == ms[2..] + random
  {
    for k := 0 to 6
      invariant b[..k] == ms[2..2 + k]
    {
      b[k] := ms[2 + k];
    }
    for k := 0 to 10
      invariant b[..6 + k] == ms[2..] + random[..k]
    {
      b[6 + k] := random[k];
    }
  }

  /** The low 64 bits of v, most significant byte first. */
  method BigEndian64(v: int) returns (bytes: seq<int>)
    ensures bytes == Digits(v, Byte, 8)
  {
    var rest := v;
    bytes := [];
    for i := 0 to 8
      invariant Digits(v, Byte, 8) == Digits(rest, Byte, 8 - i) + bytes
    {
      bytes := [rest % 256] + bytes;
      rest := rest / 256;
    }
  }

  /** The last n of n + k digits are the low n digits. */
  lemma {:induction false} LowDigits(v: int, n: nat, k: nat)
    ensures Digits(v, Byte, n + k)[k..] == Digits(v, Byte, n)
    decreases n
  {
    if n > 0 {
      LowDigits(v / 256, n - 1, k);
    } else {
      assert Digits(v, Byte, k)[k..] == [];
    }
  }

  // ----- Round trip -----

  /** The alphabet is in character order and holds no line break. */
  lemma AlphabetSorted(i: int, j: int)
    requires 0 <= i < j < 32
    ensures '\r' < Symbol(i) < Symbol(j)
  {
  }

  lemma {:induction false} ReadSymbols(ds: seq<int>)
    requires InBase(ds, Char32)
    ensures Read(Symbols(ds)) == Some(ds)
  {
    if |ds| > 0 {
      var front, last := ds[..|ds| - 1], ds[|ds| - 1];
      ReadSymbols(front);
      assert Symbols(ds)[..|ds| - 1] == Symbols(front);
      assert Symbols(ds)[|ds| - 1] == Symbol(last);
      assert ds == front + [last];
      assert IndexFrom(Symbol(last), 0) == Some(last) && Symbol(last) > '\r';
    }
  }

  /** Decoding what was encoded gives the same bytes, for any number of them. */
  lemma DecodeEncode(bytes: seq<int>)
    requires InBase(bytes, Byte)
    ensures Decode(Encode(bytes)) == Some(bytes)
  {
    var n, m, bits := |bytes|, EncodedLength(|bytes|), FillBits(|bytes|);
    var ds := Digits(Fill(Value(bytes, Byte), bits), Char32, m);
    assert Read(Encode(bytes)) == Some(ds) by {
      ReadSymbols(ds);
    }
    assert Value(ds, Char32) == Fill(Value(bytes, Byte), bits) by {
      FillFits(bytes);
      ValueOfDigits(Fill(Value(bytes, Byte), bits), Char32, m);
    }
    assert 5 * m / 8 == n && 5 * m - 8 * n == bits;
    DropFill(Value(bytes, Byte), bits);
    DigitsOfValue(bytes, Byte);
  }

  lemma {:induction false} DropFill(v: int, bits: nat)
    ensures Drop(Fill(v, bits), bits) == v
  {
    if bits > 0 {
      assert Fill(v, bits) / 2 == Fill(v, bits - 1);
      DropFill(v, bits - 1);
    }
  }

  /** The filled value fits the characters it is written in. */
  lemma FillFits(bytes: seq<int>)
    requires InBase(bytes, Byte)
    ensures 0 <= Fill(Value(bytes, Byte), FillBits(|bytes|)) < Capacity(Char32, EncodedLength(|bytes|))
  {
    var n := |bytes|;
    ValueRange(bytes, Byte);
    FillMonotone(Value(bytes, Byte), Capacity(Byte, n), FillBits(n));
    SmallFill(Value(bytes, Byte), FillBits(n));
    SameBits(n);
  }

  lemma {:induction false} FillMonotone(a: int, b: int, bits: nat)
    requires a < b
    ensures Fill(a, bits) < Fill(b, bits)
  {
    if bits > 0 {
      FillMonotone(a, b, bits - 1);
    }
  }

  /** The bits of n bytes with their fill are the bits of the characters. */
  lemma {:induction false} SameBits(n: nat)
    ensures Fill(Capacity(Byte, n), FillBits(n)) == Capacity(Char32, EncodedLength(n))
  {
    if n >= 5 {
      var m := n - 5;
      SameBits(m);
      FiveBytes(m);
      EightCharacters(EncodedLength(m));
      assert EncodedLength(n) == EncodedLength(m) + 8;
      FillScales(Capacity(Byte, m), FillBits(m));
    } else {
      SmallBits(n);
    }
  }

  lemma SmallBits(n: nat)
    requires n < 5
    ensures Fill(Capacity(Byte, n), FillBits(n)) == Capacity(Char32, EncodedLength(n))
  {
    SmallBytes();
    SmallCharacters();
    var v, bits, m := Capacity(Byte, n), FillBits(n), EncodedLength(n);
    SmallFill(v, bits);
    if n == 1 {
      assert m == 2 && bits == 2;
    } else if n == 2 {
      assert m == 4 && bits == 4;
    } else if n == 3 {
      assert m == 5 && bits == 1;
    } else if n == 4 {
      assert m == 7 && bits == 3;
    }
  }

  lemma SmallFill(v: int, bits: nat)
    ensures bits == 0 ==> Fill(v, bits) == v
    ensures bits == 1 ==> Fill(v, bits) == 2 * v
    ensures bits == 2 ==> Fill(v, bits) == 4 * v
    ensures bits == 3 ==> Fill(v, bits) == 8 * v
    ensures bits == 4 ==> Fill(v, bits) == 16 * v
  {
    assert Fill(v, 1) == 2 * v;
    assert Fill(v, 2) == 2 * Fill(v, 1);
    assert Fill(v, 3) == 2 * Fill(v, 2);
    assert Fill(v, 4) == 2 * Fill(v, 3);
  }

  lemma SmallBytes()
    ensures Capacity(Byte, 1) == 256
    ensures Capacity(Byte, 2) == 0x1_0000
    ensures Capacity(Byte, 3) == 0x100_0000
    ensures Capacity(Byte, 4) == 0x1_0000_0000
    ensures Capacity(Byte, 6) == 0x1_0000_0000_0000
  {
    assert Capacity(Byte, 1) == 256 * Capacity(Byte, 0);
    assert Capacity(Byte, 2) == 256 * Capacity(Byte, 1);
    assert Capacity(Byte, 3) == 256 * Capacity(Byte, 2);
    assert Capacity(Byte, 4) == 256 * Capacity(Byte, 3);
    assert Capacity(Byte, 5) == 256 * Capacity(Byte, 4);
  }

  lemma SmallCharacters()
    ensures Capacity(Char32, 2) == 0x400
    ensures Capacity(Char32, 4) == 0x10_0000
    ensures Capacity(Char32, 5) == 0x200_0000
    ensures Capacity(Char32, 7) == 0x8_0000_0000
  {
    assert Capacity(Char32, 1) == 32 * Capacity(Char32, 0);
    assert Capacity(Char32, 2) == 32 * Capacity(Char32, 1);
    assert Capacity(Char32, 3) == 32 * Capacity(Char32, 2);
    assert Capacity(Char32, 4) == 32 * Capacity(Char32, 3);
    assert Capacity(Char32, 5) == 32 * Capacity(Char32, 4);
    assert Capacity(Char32, 6) == 32 * Capacity(Char32, 5);
  }

  lemma FiveBytes(m: nat)
    ensures Capacity(Byte, m + 5) == 0x100_0000_0000 * Capacity(Byte, m)
  {
    assert Capacity(Byte, m + 5) == 256 * Capacity(Byte, m + 4);
    assert Capacity(Byte, m + 4) == 256 * Capacity(Byte, m + 3);
    assert Capacity(Byte, m + 3) == 256 * Capacity(Byte, m + 2);
    assert Capacity(Byte, m + 2) == 256 * Capacity(Byte, m + 1);
  }

  lemma EightCharacters(m: nat)
    ensures Capacity(Char32, m + 8) == 0x100_0000_0000 * Capacity(Char32, m)
  {
    assert Capacity(Char32, m + 8) == 32 * Capacity(Char32, m + 7);
    assert Capacity(Char32, m + 7) == 32 * Capacity(Char32, m + 6);
    assert Capacity(Char32, m + 6) == 32 * Capacity(Char32, m + 5);
    assert Capacity(Char32, m + 5) == 32 * Capacity(Char32, m + 4);
    assert Capacity(Char32, m + 4) == 32 * Capacity(Char32, m + 3);
    assert Capacity(Char32, m + 3) == 32 * Capacity(Char32, m + 2);
    assert Capacity(Char32, m + 2) == 32 * Capacity(Char32, m + 1);
  }

  lemma {:induction false} FillScales(v: int, bits: nat)
    ensures Fill(0x100_0000_0000 * v, bits) == 0x100_0000_0000 * Fill(v, bits)
  {
    if bits > 0 {
      FillScales(v, bits - 1);
    }
  }

  /** Every minted id is valid for its prefix. */
  lemma MintedIsValid(prefix: string, t: Instant, random: seq<int>)
    requires |random| == 10 && InBase(random, Byte)
    ensures Valid(prefix, IdAt(prefix, t, random))
  {
    DecodeEncode(Layout(t, random));
    assert IdAt(prefix, t, random)[|prefix|..] == Encode(Layout(t, random));
  }

  /** What shape an id is checked for: its prefix, its length, and a body of nothing but the alphabet
      and line breaks. */
  lemma ValidMeans(prefix: string, s: string)
    ensures Valid(prefix, s) <==>
            && prefix <= s
            && |s| == |prefix| + LENGTH
            && forall c :: c in s[|prefix|..] ==> InAlphabet(c) || c == '\r' || c == '\n'
  {
    if prefix <= s {
      ReadMeans(s[|prefix|..]);
    }
  }

  lemma {:induction false} ReadMeans(s: string)
    ensures Read(s).Some? <==> forall c :: c in s ==> InAlphabet(c) || c == '\r' || c == '\n'
  {
    if |s| > 0 {
      var front, c := s[..|s| - 1], s[|s| - 1];
      ReadMeans(front);
      assert s == front + [c];
      assert IndexFrom(c, 0).Some? <==> InAlphabet(c);
      assert forall x :: x in s <==> x in front || x == c;
    }
  }

  // ----- Order -----

  lemma EncodeKeepsOrder(a: seq<int>, b: seq<int>)
    requires |a| == |b| && InBase(a, Byte) && InBase(b, Byte)
    requires Before(a, b)
    ensures Below(Encode(a), Encode(b))
  {
    var m, bits := EncodedLength(|a|), FillBits(|a|);
    var va, vb := Fill(Value(a, Byte), bits), Fill(Value(b, Byte), bits);
    OrderIsNumeric(a, b, Byte);
    FillMonotone(Value(a, Byte), Value(b, Byte), bits);
    FillFits(a);
    FillFits(b);
    ValueOfDigits(va, Char32, m);
    ValueOfDigits(vb, Char32, m);
    OrderIsNumeric(Digits(va, Char32, m), Digits(vb, Char32, m), Char32);
    SymbolsKeepOrder(Digits(va, Char32, m), Digits(vb, Char32, m));
  }

  lemma SymbolsKeepOrder(x: seq<int>, y: seq<int>)
    requires |x| == |y| && InBase(x, Char32) && InBase(y, Char32)
    requires Before(x, y)
    ensures Below(Symbols(x), Symbols(y))
  {
    var i :| 0 <= i < |x| && x[..i] == y[..i] && x[i] < y[i];
    assert Symbols(x)[..i] == Symbols(x[..i]) == Symbols(y[..i]) == Symbols(y)[..i];
    AlphabetSorted(x[i], y[i]);
    BelowMeans(Symbols(x), Symbols(y));
    assert PartsAt(Symbols(x), Symbols(y), i);
  }

  /** Ids under one prefix sort by the millisecond they were minted in, whatever the random bytes. */
  lemma IdsSortByTime(prefix: string, t1: Instant, r1: seq<int>, t2: Instant, r2: seq<int>)
    requires |r1| == |r2| == 10 && InBase(r1, Byte) && InBase(r2, Byte)
    requires 0 <= t1 / 1_000_000 < t2 / 1_000_000 < 0x1_0000_0000_0000
    ensures Below(IdAt(prefix, t1, r1), IdAt(prefix, t2, r2))
  {
    var m1, m2 := Digits(Millis(t1), Byte, 6), Digits(Millis(t2), Byte, 6);
    SmallBytes();
    ValueOfDigits(Millis(t1), Byte, 6);
    ValueOfDigits(Millis(t2), Byte, 6);
    OrderIsNumeric(m1, m2, Byte);
    BeforeExtends(m1, m2, r1, r2);
    EncodeKeepsOrder(Layout(t1, r1), Layout(t2, r2));
    PrefixKeepsOrder(prefix, Encode(Layout(t1, r1)), Encode(Layout(t2, r2)));
  }

  lemma PrefixKeepsOrder(prefix: string, a: string, b: string)
    requires Below(a, b)
    ensures Below(prefix + a, prefix + b)
  {
    BelowMeans(a, b);
    BelowMeans(prefix + a, prefix + b);
    var i: nat :| PartsAt(a, b, i);
    var k := |prefix| + i;
    assert (prefix + a)[..k] == prefix + a[..i];
    assert (prefix + b)[..k] == prefix + b[..i];
    assert PartsAt(prefix + a, prefix + b, k);
  }

  // ----- What an id carries -----

  const CROCKFORD := "0123456789ABCDEFGHJKMNPQRSTVWXYZ"

  lemma AlphabetSpelled(d: int)
    requires 0 <= d < 32
    ensures |CROCKFORD| == 32 && Symbol(d) == CROCKFORD[d]
  {
  }

  /** An id can be read back: its first six bytes are its millisecond and its last ten the random ones. */
  lemma IdCarries(prefix: string, t: Instant, random: seq<int>)
    requires |random| == 10 && InBase(random, Byte)
    requires 0 <= t / 1_000_000 < 0x1_0000_0000_0000
    ensures var id := IdAt(prefix, t, random);
            && prefix <= id
            && var bytes := Decode(id[|prefix|..]);
            && bytes.Some? && |bytes.value| == 16
            && Value(bytes.value[..6], Byte) == t / 1_000_000
            && bytes.value[6..] == random
  {
    DecodeEncode(Layout(t, random));
    assert IdAt(prefix, t, random)[|prefix|..] == Encode(Layout(t, random));
    SmallBytes();
    ValueOfDigits(Millis(t), Byte, 6);
  }

  /** Two ids under one prefix are the same exactly when their milliseconds and their random bytes are. */
  lemma IdsDifferExactlyWhen(prefix: string, t1: Instant, r1: seq<int>, t2: Instant, r2: seq<int>)
    requires |r1| == |r2| == 10 && InBase(r1, Byte) && InBase(r2, Byte)
    requires 0 <= t1 / 1_000_000 < 0x1_0000_0000_0000 && 0 <= t2 / 1_000_000 < 0x1_0000_0000_0000
    ensures IdAt(prefix, t1, r1) == IdAt(prefix, t2, r2) <==> t1 / 1_000_000 == t2 / 1_000_000 && r1 == r2
  {
    IdCarries(prefix, t1, r1);
    IdCarries(prefix, t2, r2);
  }

  /** The test vectors of section 10 of RFC 4648, in this alphabet and without padding. */
  lemma KnownEncodings()
    ensures Encode([]) == ""
    ensures Encode([0x66]) == "CR"
    ensures Encode([0x66, 0x6f]) == "CSQG"
    ensures Encode([0x66, 0x6f, 0x6f]) == "CSQPY"
  {
    hide Value, Fill, Digits, Encode, Symbol, EncodedLength, FillBits;
    KnownValues();
    KnownDigits();
    KnownLengths();
    KnownSymbols();
    Spelled([], [], "");
    Spelled([0x66], [12, 24], "CR");
    Spelled([0x66, 0x6f], [12, 25, 23, 16], "CSQG");
    Spelled([0x66, 0x6f, 0x6f], [12, 25, 23, 22, 30], "CSQPY");
  }

  lemma Spelled(bytes: seq<int>, ds: seq<int>, s: string)
    requires Digits(Fill(Value(bytes, Byte), FillBits(|bytes|)), Char32, EncodedLength(|bytes|)) == ds
    requires |s| == |ds| && forall i :: 0 <= i < |s| ==> 0 <= ds[i] < 32 && Symbol(ds[i]) == s[i]
    ensures Encode(bytes) == s
  {
  }

  lemma KnownLengths()
    ensures EncodedLength(0) == 0 && EncodedLength(1) == 2 && EncodedLength(2) == 4 && EncodedLength(3) == 5
    ensures FillBits(0) == 0 && FillBits(1) == 2 && FillBits(2) == 4 && FillBits(3) == 1
  {
    hide EncodedLength, FillBits;
    LengthIs(0, 0);
    LengthIs(1, 2);
    LengthIs(2, 4);
    LengthIs(3, 5);
  }

  lemma LengthIs(n: nat, m: nat)
    requires 5 * m - 5 < 8 * n <= 5 * m
    ensures EncodedLength(n) == m && FillBits(n) == 5 * m - 8 * n
  {
  }

  lemma KnownSymbols()
    ensures Symbol(12) == 'C' && Symbol(16) == 'G' && Symbol(22) == 'P' && Symbol(23) == 'Q'
    ensures Symbol(24) == 'R' && Symbol(25) == 'S' && Symbol(30) == 'Y'
  {
  }

  lemma KnownValues()
    ensures Fill(Value([0x66], Byte), 2) == 0x198
    ensures Fill(Value([0x66, 0x6f], Byte), 4) == 0x666f0
    ensures Fill(Value([0x66, 0x6f, 0x6f], Byte), 1) == 0xccdede
  {
    assert [0x66][..0] == [];
    assert [0x66, 0x6f][..1] == [0x66];
    assert [0x66, 0x6f, 0x6f][..2] == [0x66, 0x6f];
    assert Value([0x66], Byte) == 0x66;
    assert Value([0x66, 0x6f], Byte) == 0x666f;
    assert Value([0x66, 0x6f, 0x6f], Byte) == 0x666f6f;
  }

  lemma KnownDigits()
    ensures |Digits(Fill(Value([], Byte), 0), Char32, 0)| == 0
    ensures Digits(0x198, Char32, 2) == [12, 24]
    ensures Digits(0x666f0, Char32, 4) == [12, 25, 23, 16]
    ensures Digits(0xccdede, Char32, 5) == [12, 25, 23, 22, 30]
  {
    assert Digits(12, Char32, 1) == [12];
    assert Digits(12 * 32 + 25, Char32, 2) == [12, 25];
    assert Digits((12 * 32 + 25) * 32 + 23, Char32, 3) == [12, 25, 23];
    assert Digits(((12 * 32 + 25) * 32 + 23) * 32 + 22, Char32, 4) == [12, 25, 23, 22];
  }
}
