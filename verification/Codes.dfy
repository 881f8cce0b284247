/** Recovery codes: how they are minted, and how forgivingly they are read back. */
module Codes {
  import opened Clock
  import opened Ids

  const CODE_LENGTH := 8

  /** A digit, or a capital other than I, L, O and U. */
  predicate InCodeAlphabet(c: char) {
    '0' <= c <= '9' || ('A' <= c <= 'Z' && c != 'I' && c != 'L' && c != 'O' && c != 'U')
  }

  predicate IsCode(s: string) {
    forall i :: 0 <= i < |s| ==> InCodeAlphabet(s[i])
  }

  lemma AlphabetIsSymbols(c: char)
    ensures InCodeAlphabet(c) <==> exists v :: 0 <= v < 32 && Symbol(v) == c
  {
    if InCodeAlphabet(c) {
      var n := c as int;
      var v := if n < 58 then n - 48 else if n < 73 then n - 55 else if n < 76 then n - 56
               else if n < 79 then n - 57 else if n < 85 then n - 58 else n - 59;
      assert Symbol(v) == c;
    }
  }

  /** Eight random bytes, each reduced to a symbol. */
  method NewCode(random: seq<int>) returns (code: string)
    requires |random| == CODE_LENGTH && forall i :: 0 <= i < |random| ==> 0 <= random[i] < 256
    ensures |code| == 8 && IsCode(code)
    ensures forall i :: 0 <= i < CODE_LENGTH ==> code[i] == Symbol(random[i] % 32)
  {
    code := "";
    for i := 0 to |random|
      invariant |code| == i && IsCode(code)
      invariant forall j :: 0 <= j < i ==> code[j] == Symbol(random[j] % 32)
    {
      code := code + [Symbol(random[i] % 32)];
    }
  }

  /** And every text over the alphabet is what some random bytes reduce to. */
  lemma {:induction false} EveryCodeIsMinted(code: string) returns (random: seq<int>)
    requires IsCode(code)
    ensures |random| == |code| && forall i :: 0 <= i < |random| ==> 0 <= random[i] < 256 && Symbol(random[i] % 32) == code[i]
  {
    if |code| == 0 {
      random := [];
    } else {
      var n := |code| - 1;
      random := EveryCodeIsMinted(code[..n]);
      AlphabetIsSymbols(code[n]);
      var v :| 0 <= v < 32 && Symbol(v) == code[n];
      random := random + [v];
    }
  }

  // ----- Reading one back -----

  /** White space a text is trimmed of at both ends. */
  predicate IsSpace(c: char) {
    c == ' ' || '\t' <= c <= '\r'
  }

  function TrimLeft(s: string): string {
    if |s| > 0 && IsSpace(s[0]) then TrimLeft(s[1..]) else s
  }

  function TrimRight(s: string): string {
    if |s| > 0 && IsSpace(s[|s| - 1]) then TrimRight(s[..|s| - 1]) else s
  }

  function Trim(s: string): string {
    TrimRight(TrimLeft(s))
  }

  function Upper(c: char): char {
    if 'a' <= c <= 'z' then (c as int - 32) as char else c
  }

  /** What one typed character contributes. */
  function Reading(c: char): string {
    var u := Upper(c);
    if u == ' ' || u == '-' then ""
    else if u == 'I' || u == 'L' then "1"
    else if u == 'O' then "0"
    else [u]
  }

  function ReadAll(s: string): string {
    if |s| == 0 then "" else ReadAll(s[..|s| - 1]) + Reading(s[|s| - 1])
  }

  function Normalised(s: string): string {
    ReadAll(Trim(s))
  }

  method NormaliseCode(code: string) returns (out: string)
    ensures out == Normalised(code)
  {
    var typed := Trim(code);
    out := "";
    for i := 0 to |typed|
      invariant out == ReadAll(typed[..i])
    {
      assert typed[..i + 1][..i] == typed[..i];
      var u := Upper(typed[i]);
      if u == ' ' || u == '-' {
      } else if u == 'I' || u == 'L' {
        out := out + "1";
      } else if u == 'O' {
        out := out + "0";
      } else {
        out := out + [u];
      }
    }
    assert typed[..|typed|] == typed;
  }

  // ----- What is forgiven -----

  predicate IsSeparator(c: char) {
    c == ' ' || c == '-'
  }

  /** One character typed for another: itself, in either case, or a letter that looks like the digit. */
  predicate StandsFor(typed: char, c: char) {
    || typed == c
    || ('A' <= c <= 'Z' && typed as int == c as int + 32)
    || (c == '0' && (typed == 'O' || typed == 'o'))
    || (c == '1' && (typed == 'I' || typed == 'i' || typed == 'L' || typed == 'l'))
  }

  /** A forgiving typing of a code: its characters in order, each as itself or as something that stands for
      it, with any spaces and hyphens anywhere. */
  predicate Types(typed: string, code: string) {
    if |typed| == 0 then |code| == 0
    else
      var front, last := typed[..|typed| - 1], typed[|typed| - 1];
      if IsSeparator(last) then Types(front, code)
      else |code| > 0 && StandsFor(last, code[|code| - 1]) && Types(front, code[..|code| - 1])
  }

  /** What a character reads as is exactly what it stands for. */
  lemma ReadingIsStandsFor(typed: char, c: char)
    requires InCodeAlphabet(c)
    ensures Reading(typed) == [c] <==> StandsFor(typed, c)
    ensures IsSeparator(typed) <==> Reading(typed) == ""
  {
  }

  /** A text reads as a code if and only if it is a forgiving typing of it. */
  lemma {:induction false} ReadsAsTyped(typed: string, code: string)
    requires IsCode(code)
    ensures ReadAll(typed) == code <==> Types(typed, code)
  {
    if |typed| > 0 {
      var front, last := typed[..|typed| - 1], typed[|typed| - 1];
      if IsSeparator(last) {
        ReadsAsTyped(front, code);
      } else if |code| > 0 {
        var c := code[|code| - 1];
        ReadsAsTyped(front, code[..|code| - 1]);
        ReadingIsStandsFor(last, c);
        assert code == code[..|code| - 1] + [c];
      }
    }
  }

  /** Normalising undoes exactly the forgiving typings, with white space of any kind around them. */
  lemma NormalisingForgivesExactly(typed: string, code: string)
    requires IsCode(code)
    ensures Normalised(typed) == code <==> Types(Trim(typed), code)
  {
    ReadsAsTyped(Trim(typed), code);
  }

  // ----- Trimming -----

  /** No white space but spaces. */
  ghost predicate SpacesOnly(s: string) {
    forall c :: c in s && IsSpace(c) ==> c == ' '
  }

  lemma {:induction false} TrimLeftOfSeparators(s: string)
    requires SpacesOnly(s)
    ensures ReadAll(TrimLeft(s)) == ReadAll(s)
    ensures SpacesOnly(TrimLeft(s))
  {
    if |s| > 0 && IsSpace(s[0]) {
      TrimLeftOfSeparators(s[1..]);
      LeadingSpaceReadsAsNothing(s);
    }
  }

  lemma LeadingSpaceReadsAsNothing(s: string)
    requires |s| > 0 && s[0] == ' '
    ensures ReadAll(s[1..]) == ReadAll(s)
  {
    var first := [s[0]];
    ReadConcatenation(first, s[1..]);
    assert s == first + s[1..];
    assert first[..0] == "";
    assert ReadAll(first) == ReadAll(first[..0]) + Reading(first[0]);
  }

  lemma {:induction false} TrimRightOfSeparators(s: string)
    requires SpacesOnly(s)
    ensures ReadAll(TrimRight(s)) == ReadAll(s)
    ensures SpacesOnly(TrimRight(s))
  {
    if |s| > 0 && IsSpace(s[|s| - 1]) {
      TrimRightOfSeparators(s[..|s| - 1]);
    }
  }

  lemma {:induction false} ReadConcatenation(a: string, b: string)
    ensures ReadAll(a + b) == ReadAll(a) + ReadAll(b)
  {
    hide Reading;
    if |b| == 0 {
      assert a + b == a;
    } else {
      var front, last := b[..|b| - 1], b[|b| - 1];
      ReadConcatenation(a, front);
      assert a + b == (a + front) + [last];
      ReadOneMore(a + front, last);
      Regroup(ReadAll(a), ReadAll(front), Reading(last));
    }
  }

  lemma Regroup(x: string, y: string, z: string)
    ensures (x + y) + z == x + (y + z)
  {
  }

  lemma ReadOneMore(s: string, c: char)
    ensures ReadAll(s + [c]) == ReadAll(s) + Reading(c)
  {
    assert (s + [c])[..|s|] == s;
  }

  ghost predicate AllSpace(s: string) {
    forall i :: 0 <= i < |s| ==> s[i] == ' ' || 9 <= s[i] as int <= 13
  }

  lemma {:induction false} TrimLeftExactly(s: string) returns (a: string)
    ensures s == a + TrimLeft(s) && AllSpace(a)
    ensures |TrimLeft(s)| > 0 ==> !AllSpace([TrimLeft(s)[0]])
  {
    a := "";
    if |s| > 0 && IsSpace(s[0]) {
      a := TrimLeftExactly(s[1..]);
      a := [s[0]] + a;
    } else if |s| > 0 {
      assert [s[0]][0] == s[0];
    }
  }

  lemma {:induction false} TrimRightExactly(s: string) returns (b: string)
    ensures s == TrimRight(s) + b && AllSpace(b)
    ensures |TrimRight(s)| > 0 ==> !AllSpace([TrimRight(s)[|TrimRight(s)| - 1]])
    ensures |TrimRight(s)| > 0 ==> TrimRight(s)[0] == s[0]
  {
    b := "";
    if |s| > 0 && IsSpace(s[|s| - 1]) {
      b := TrimRightExactly(s[..|s| - 1]);
      b := b + [s[|s| - 1]];
    } else if |s| > 0 {
      assert [s[|s| - 1]][0] == s[|s| - 1];
    }
  }

  /** Trimming takes white space off both ends, all of it and nothing else. */
  lemma TrimExactly(s: string) returns (a: string, b: string)
    ensures s == a + Trim(s) + b && AllSpace(a) && AllSpace(b)
    ensures |Trim(s)| > 0 ==> !AllSpace([Trim(s)[0]]) && !AllSpace([Trim(s)[|Trim(s)| - 1]])
  {
    a := TrimLeftExactly(s);
    b := TrimRightExactly(TrimLeft(s));
  }

  /** Where a text's only white space is spaces, trimming changes nothing that is read. */
  lemma TrimIsHarmless(s: string)
    requires SpacesOnly(s)
    ensures Normalised(s) == ReadAll(s)
  {
    TrimLeftOfSeparators(s);
    TrimRightOfSeparators(TrimLeft(s));
  }

  /** So every forgiving typing of a code normalises back to it. */
  lemma EveryTypingComesBack(typed: string, code: string)
    requires IsCode(code) && Types(typed, code)
    ensures Normalised(typed) == code
  {
    TypedWithSpacesOnly(typed, code);
    TrimIsHarmless(typed);
    ReadsAsTyped(typed, code);
  }

  lemma {:induction false} TypesItself(code: string)
    requires IsCode(code)
    ensures Types(code, code)
  {
    if |code| > 0 {
      TypesItself(code[..|code| - 1]);
    }
  }

  lemma {:induction false} TypedWithSpacesOnly(typed: string, code: string)
    requires IsCode(code) && Types(typed, code)
    ensures SpacesOnly(typed)
  {
    if |typed| > 0 {
      var front, last := typed[..|typed| - 1], typed[|typed| - 1];
      if IsSeparator(last) {
        TypedWithSpacesOnly(front, code);
      } else {
        TypedWithSpacesOnly(front, code[..|code| - 1]);
      }
      assert typed == front + [last];
    }
  }

  // ----- Idempotence -----

  /** The first character of a text that reads as something. */
  function FirstKept(s: string): Option<char> {
    if |s| == 0 then None
    else
      var first, c := FirstKept(s[..|s| - 1]), s[|s| - 1];
      if first.None? && !IsSeparator(c) then Some(c) else first
  }

  /** And the last. */
  function LastKept(s: string): Option<char> {
    if |s| == 0 then None
    else if IsSeparator(s[|s| - 1]) then LastKept(s[..|s| - 1])
    else Some(s[|s| - 1])
  }

  /** Behind the spaces and hyphens at its ends a text has no other white space. */
  predicate CleanEnds(s: string) {
    && (FirstKept(s).Some? ==> !IsSpace(FirstKept(s).value))
    && (LastKept(s).Some? ==> !IsSpace(LastKept(s).value))
  }

  /** A character that is kept reads as one that reads as itself, and is white space if it was. */
  lemma ReadingOne(c: char)
    requires !IsSeparator(c)
    ensures |Reading(c)| == 1 && Reading(Reading(c)[0]) == Reading(c)
    ensures IsSpace(Reading(c)[0]) <==> IsSpace(c)
  {
  }

  lemma ReadCharacter(c: char)
    ensures ReadAll([c]) == Reading(c)
  {
    ReadOneMore("", c);
    assert "" + [c] == [c];
  }

  lemma ReadingTwice(c: char)
    ensures ReadAll(Reading(c)) == Reading(c)
  {
    hide ReadAll, Reading;
    if IsSeparator(c) {
      SeparatorReadsAsNothing(c);
    } else {
      ReadingOne(c);
      ReadCharacter(Reading(c)[0]);
      assert [Reading(c)[0]] == Reading(c);
    }
  }

  lemma SeparatorReadsAsNothing(c: char)
    requires IsSeparator(c)
    ensures Reading(c) == "" && ReadAll("") == ""
  {
  }

  /** What has been read reads as itself. */
  lemma {:induction false} ReadTwice(s: string)
    ensures ReadAll(ReadAll(s)) == ReadAll(s)
  {
    hide Reading;
    if |s| > 0 {
      var front, last := s[..|s| - 1], s[|s| - 1];
      ReadTwice(front);
      ReadingTwice(last);
      ReadConcatenation(ReadAll(front), Reading(last));
    }
  }

  /** What is read begins and ends with white space exactly when what is kept does. */
  lemma {:induction false} KeptEnds(s: string)
    ensures var n := ReadAll(s);
            && (FirstKept(s).Some? <==> |n| > 0) && (LastKept(s).Some? <==> |n| > 0)
            && (|n| > 0 ==> (IsSpace(n[0]) <==> IsSpace(FirstKept(s).value)))
            && (|n| > 0 ==> (IsSpace(n[|n| - 1]) <==> IsSpace(LastKept(s).value)))
  {
    hide Reading, IsSpace;
    if |s| > 0 {
      KeptEnds(s[..|s| - 1]);
      if IsSeparator(s[|s| - 1]) {
        SeparatorReadsAsNothing(s[|s| - 1]);
      } else {
        ReadingOne(s[|s| - 1]);
      }
    }
  }

  lemma {:induction false} ReadShrinks(s: string)
    ensures |ReadAll(s)| <= |s|
  {
    if |s| > 0 {
      ReadShrinks(s[..|s| - 1]);
    }
  }

  lemma {:induction false} TrimLeftShrinks(s: string)
    ensures |TrimLeft(s)| <= |s|
  {
    if |s| > 0 && IsSpace(s[0]) {
      TrimLeftShrinks(s[1..]);
    }
  }

  lemma {:induction false} TrimRightShrinks(s: string)
    ensures |TrimRight(s)| <= |s|
  {
    if |s| > 0 && IsSpace(s[|s| - 1]) {
      TrimRightShrinks(s[..|s| - 1]);
    }
  }

  /** Trimming keeps a text or shortens it, and keeps it exactly when its ends are not white space. */
  lemma TrimShortens(s: string)
    ensures Trim(s) == s || |Trim(s)| < |s|
    ensures Trim(s) == s <==> (|s| > 0 ==> !IsSpace(s[0]) && !IsSpace(s[|s| - 1]))
  {
    TrimRightShrinks(TrimLeft(s));
    if |s| > 0 && IsSpace(s[0]) {
      TrimLeftShrinks(s[1..]);
    } else if |s| > 0 {
      TrimRightShrinks(s[..|s| - 1]);
    }
  }

  /** Normalising twice is normalising once if and only if, of the trimmed text, neither the first nor the
      last character that is not a space or a hyphen is white space. */
  lemma IdempotentExactlyWhen(s: string)
    ensures Normalised(Normalised(s)) == Normalised(s) <==> CleanEnds(Trim(s))
  {
    hide Trim, ReadAll, FirstKept, LastKept, IsSpace;
    var n := Normalised(s);
    KeptEnds(Trim(s));
    TrimShortens(n);
    ReadShrinks(Trim(n));
    ReadTwice(Trim(s));
  }

  lemma {:induction false} KeptIsThere(s: string)
    ensures FirstKept(s).Some? ==> FirstKept(s).value in s && !IsSeparator(FirstKept(s).value)
    ensures LastKept(s).Some? ==> LastKept(s).value in s && !IsSeparator(LastKept(s).value)
  {
    if |s| > 0 {
      KeptIsThere(s[..|s| - 1]);
      assert s == s[..|s| - 1] + [s[|s| - 1]];
    }
  }

  /** So it is on letters, digits, spaces and hyphens, or more widely where the only white space is spaces. */
  lemma NormalisingIsIdempotent(s: string)
    requires SpacesOnly(s)
    ensures Normalised(Normalised(s)) == Normalised(s)
  {
    TrimLeftOfSeparators(s);
    TrimRightOfSeparators(TrimLeft(s));
    KeptIsThere(Trim(s));
    IdempotentExactlyWhen(s);
  }

  /** And on some texts it is not: a tab behind a hyphen is kept the first time and trimmed the second. */
  lemma NotIdempotentOnTabs()
    ensures Normalised(Normalised("-\tA")) != Normalised("-\tA")
  {
    var s := "-\tA";
    assert Trim(s) == s;
    assert s[..2] == "-\t" && "-\t"[..1] == "-" && "-"[..0] == "";
    assert FirstKept("-").None? && FirstKept("-\t") == Some('\t');
    assert FirstKept(s) == FirstKept(s[..2]);
    IdempotentExactlyWhen(s);
  }
}
