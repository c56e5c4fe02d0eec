/** Character classes and the clean-up of found strings (strings.hpp). */
module Strings {
  import opened Engine

  predicate IsAsciiPrintable(c: byte) {
    0x20 <= c <= 0x7E || c == 0x09 || c == 0x0A || c == 0x0D
  }

  predicate IsUtf16Printable(w: nat) {
    0x20 <= w <= 0x7E || w == 0x09 || w == 0x0A || w == 0x0D
  }

  predicate IsTrimSpace(c: byte) {
    c == 0x20 || c == 0x09 || c == 0x0A || c == 0x0D || c == 0x0B || c == 0x0C
  }

  /** read_u16le */
  function U16(lo: byte, hi: byte): nat {
    lo + 256 * hi
  }

  /** A printable 16-bit character has a printable low byte, so no position can pass both tests of the scanner. */
  lemma Utf16ImpliesAscii(lo: byte, hi: byte)
    requires IsUtf16Printable(U16(lo, hi))
    ensures IsAsciiPrintable(lo) && hi == 0
  {
  }

  // ----- Escaping

  function EscapeChar(c: byte): seq<byte> {
    if c == 0x0A then [0x5C, 0x6E]
    else if c == 0x0D then [0x5C, 0x72]
    else if c == 0x09 then [0x5C, 0x74]
    else if c == 0x0B then [0x5C, 0x76]
    else if c == 0x0C then [0x5C, 0x66]
    else if c == 0x07 then [0x5C, 0x61]
    else if c == 0x08 then [0x5C, 0x62]
    else [c]
  }

  function Escape(s: seq<byte>): seq<byte> {
    if s == [] then [] else Escape(s[..|s| - 1]) + EscapeChar(s[|s| - 1])
  }

  method EscapeControlChars(input: seq<byte>) returns (escaped: seq<byte>)
    ensures escaped == Escape(input)
  {
    escaped := [];
    for i := 0 to |input|
      invariant escaped == Escape(input[..i])
    {
      assert input[..i + 1][..i] == input[..i];
      escaped := escaped + EscapeChar(input[i]);
    }
    assert input[..|input|] == input;
  }

  /** After escaping, the only trimmable character left is the space: nothing control-like survives. */
  lemma {:induction false} EscapedIsPlain(s: seq<byte>)
    ensures forall c :: c in Escape(s) ==> c != 0x0A && c != 0x0D && c != 0x09 && c != 0x0B && c != 0x0C && c != 0x07 && c != 0x08
    decreases |s|
  {
    if s != [] {
      EscapedIsPlain(s[..|s| - 1]);
    }
  }

  // ----- Trimming

  /** t is what is left of s without its leading and trailing white space. */
  ghost predicate IsTrimmed(s: seq<byte>, t: seq<byte>) {
    exists i, j :: IsTrimmedAt(s, t, i, j)
  }

  ghost predicate IsTrimmedAt(s: seq<byte>, t: seq<byte>, i: int, j: int) {
    && 0 <= i <= j <= |s| && t == s[i..j]
    && (forall k :: 0 <= k < i || j <= k < |s| ==> IsTrimSpace(s[k]))
    && (t != [] ==> !IsTrimSpace(t[0]) && !IsTrimSpace(t[|t| - 1]))
  }

  function TrimLeft(s: seq<byte>): seq<byte> {
    if s != [] && IsTrimSpace(s[0]) then TrimLeft(s[1..]) else s
  }

  function TrimRight(s: seq<byte>): seq<byte> {
    if s != [] && IsTrimSpace(s[|s| - 1]) then TrimRight(s[..|s| - 1]) else s
  }

  /** strings::trim */
  function Trim(s: seq<byte>): seq<byte> {
    TrimRight(TrimLeft(s))
  }

  lemma {:induction false} TrimLeftSplits(s: seq<byte>) returns (i: nat)
    ensures i <= |s| && TrimLeft(s) == s[i..] && forall k :: 0 <= k < i ==> IsTrimSpace(s[k])
    ensures TrimLeft(s) != [] ==> !IsTrimSpace(TrimLeft(s)[0])
    decreases |s|
  {
    if s != [] && IsTrimSpace(s[0]) {
      i := TrimLeftSplits(s[1..]);
      assert s[1..][i..] == s[i + 1..];
      forall k | 0 <= k < i + 1
        ensures IsTrimSpace(s[k])
      {
        if k > 0 {
          assert s[k] == s[1..][k - 1];
        }
      }
      i := i + 1;
    } else {
      i := 0;
    }
  }

  lemma {:induction false} TrimRightSplits(s: seq<byte>) returns (j: nat)
    ensures j <= |s| && TrimRight(s) == s[..j] && forall k :: j <= k < |s| ==> IsTrimSpace(s[k])
    ensures TrimRight(s) != [] ==> !IsTrimSpace(TrimRight(s)[|TrimRight(s)| - 1])
    decreases |s|
  {
    if s != [] && IsTrimSpace(s[|s| - 1]) {
      j := TrimRightSplits(s[..|s| - 1]);
      assert s[..|s| - 1][..j] == s[..j];
      forall k | j <= k < |s|
        ensures IsTrimSpace(s[k])
      {
        if k < |s| - 1 {
          assert s[k] == s[..|s| - 1][k];
        }
      }
    } else {
      j := |s|;
    }
  }

  predicate AllTrimSpace(s: seq<byte>) {
    forall k :: 0 <= k < |s| ==> IsTrimSpace(s[k])
  }

  lemma TrimTrims(s: seq<byte>)
    ensures IsTrimmed(s, Trim(s))
    ensures Trim(s) == [] <==> AllTrimSpace(s)
  {
    var i := TrimLeftSplits(s);
    var l := TrimLeft(s);
    var j := TrimRightSplits(l);
    assert l[..j] == s[i..i + j];
    forall k | i + j <= k < |s|
      ensures IsTrimSpace(s[k])
    {
      assert s[k] == l[k - i];
    }
    assert IsTrimmedAt(s, Trim(s), i, i + j);
    if Trim(s) != [] {
      assert s[i] == Trim(s)[0];
    }
  }

  /** What is left determines itself: no other piece is trimmed. */
  lemma TrimmedIsUnique(s: seq<byte>, t: seq<byte>)
    requires IsTrimmed(s, t)
    ensures t == Trim(s)
  {
    hide IsTrimSpace, Trim, IsTrimmedAt;
    var i, j :| IsTrimmedAt(s, t, i, j);
    TrimTrims(s);
    var a, b :| IsTrimmedAt(s, Trim(s), a, b);
    EmptyPiece(s, t, i, j);
    if t != [] && Trim(s) != [] {
      PieceInside(s, t, i, j, Trim(s), a, b);
      PieceInside(s, Trim(s), a, b, t, i, j);
      SamePiece(s, t, i, j, Trim(s), a, b);
    }
  }

  lemma EmptyPiece(s: seq<byte>, t: seq<byte>, i: int, j: int)
    requires IsTrimmedAt(s, t, i, j)
    ensures t == [] <==> AllTrimSpace(s)
  {
    hide IsTrimSpace;
    if t != [] {
      assert t[0] == s[i];
    }
  }

  /** A trimmed piece that is not empty lies inside every other. */
  lemma PieceInside(s: seq<byte>, t: seq<byte>, i: int, j: int, u: seq<byte>, a: int, b: int)
    requires IsTrimmedAt(s, t, i, j) && IsTrimmedAt(s, u, a, b) && t != []
    ensures a <= i && j <= b
  {
    hide IsTrimSpace;
    assert t[0] == s[i] && t[|t| - 1] == s[j - 1];
  }

  lemma SamePiece(s: seq<byte>, t: seq<byte>, i: int, j: int, u: seq<byte>, a: int, b: int)
    requires IsTrimmedAt(s, t, i, j) && IsTrimmedAt(s, u, a, b) && i == a && j == b
    ensures t == u
  {
  }

  method TrimInPlace(input: seq<byte>) returns (s: seq<byte>)
    ensures s == Trim(input)
  {
    s := input;
    var first := 0;
    var len := |s|;
    while first < len && IsTrimSpace(s[first])
      invariant 0 <= first <= len && forall k :: 0 <= k < first ==> IsTrimSpace(s[k])
    {
      first := first + 1;
    }
    s := s[first..];
    var last := |s|;
    while last > 0 && IsTrimSpace(s[last - 1])
      invariant 0 <= last <= |s| && forall k :: last <= k < |s| ==> IsTrimSpace(s[k])
    {
      last := last - 1;
    }
    var all := s;
    s := s[..last];
    assert IsTrimmedAt(input, s, first, first + last) by {
      assert s == input[first..first + last];
      forall k | first + last <= k < |input|
        ensures IsTrimSpace(input[k])
      {
        assert input[k] == all[k - first];
      }
      if s != [] {
        assert s[0] == input[first];
      }
    }
    TrimmedIsUnique(input, s);
  }

  // ----- What push_string keeps of a text

  function Normal(text: seq<byte>): seq<byte> {
    Trim(Escape(text))
  }

  predicate AllSpaces(s: seq<byte>) {
    forall k :: 0 <= k < |s| ==> s[k] == 0x20
  }

  lemma AllTrimSpaceAppends(a: seq<byte>, b: seq<byte>)
    ensures AllTrimSpace(a + b) <==> AllTrimSpace(a) && AllTrimSpace(b)
  {
    hide IsTrimSpace;
    if AllTrimSpace(a + b) {
      forall k | 0 <= k < |a|
        ensures IsTrimSpace(a[k])
      {
        assert a[k] == (a + b)[k];
      }
      forall k | 0 <= k < |b|
        ensures IsTrimSpace(b[k])
      {
        assert b[k] == (a + b)[|a| + k];
      }
    }
  }

  lemma SpacesAppend(s: seq<byte>)
    requires s != []
    ensures AllSpaces(s) <==> AllSpaces(s[..|s| - 1]) && s[|s| - 1] == 0x20
  {
  }

  lemma EscapeCharOfSpace(c: byte)
    ensures AllTrimSpace(EscapeChar(c)) <==> c == 0x20
  {
    var e := EscapeChar(c);
    assert e[0] == 0x5C || e == [c];
    assert IsTrimSpace(e[0]) <==> c == 0x20;
  }

  lemma EscapeStep(s: seq<byte>)
    ensures Escape(s) == if s == [] then [] else Escape(s[..|s| - 1]) + EscapeChar(s[|s| - 1])
  {
  }

  lemma {:induction false} EscapeOfSpaces(s: seq<byte>)
    ensures AllTrimSpace(Escape(s)) <==> AllSpaces(s)
    decreases |s|
  {
    EscapeStep(s);
    if s != [] {
      hide *;
      var n := |s| - 1;
      EscapeOfSpaces(s[..n]);
      EscapeCharOfSpace(s[n]);
      AllTrimSpaceAppends(Escape(s[..n]), EscapeChar(s[n]));
      SpacesAppend(s);
    }
  }

  /** A text disappears entirely exactly when it consists of spaces. */
  lemma NothingLeftIff(text: seq<byte>)
    ensures Normal(text) == [] <==> AllSpaces(text)
  {
    hide Escape, Trim, AllTrimSpace, AllSpaces, IsTrimmed;
    TrimTrims(Escape(text));
    EscapeOfSpaces(text);
  }

  // ----- When escaping loses the text

  predicate IsEscaped(c: byte) {
    c == 0x0A || c == 0x0D || c == 0x09 || c == 0x0B || c == 0x0C || c == 0x07 || c == 0x08
  }

  /** One of n r t v f a b, the letters that stand for an escaped character. */
  predicate IsEscapeLetter(c: byte) {
    c == 0x6E || c == 0x72 || c == 0x74 || c == 0x76 || c == 0x66 || c == 0x61 || c == 0x62
  }

  function Unescaped(letter: byte): (c: byte)
    requires IsEscapeLetter(letter)
    ensures IsEscaped(c) && EscapeChar(c) == [0x5C, letter]
  {
    if letter == 0x6E then 0x0A
    else if letter == 0x72 then 0x0D
    else if letter == 0x74 then 0x09
    else if letter == 0x76 then 0x0B
    else if letter == 0x66 then 0x0C
    else if letter == 0x61 then 0x07
    else 0x08
  }

  /** A backslash and the letter of an escaped character lie at i. */
  predicate LooksEscaped(s: seq<byte>, i: nat) {
    i + 1 < |s| && s[i] == 0x5C && IsEscapeLetter(s[i + 1])
  }

  lemma {:induction false} EscapeAppends(s: seq<byte>, t: seq<byte>)
    ensures Escape(s + t) == Escape(s) + Escape(t)
    decreases |t|
  {
    hide Escape, EscapeChar;
    EscapeStep(t);
    if t == [] {
      assert s + t == s;
    } else {
      var n := |t| - 1;
      EscapeAppends(s, t[..n]);
      EscapeStep(s + t);
      assert (s + t)[..|s + t| - 1] == s + t[..n];
      assert (s + t)[|s + t| - 1] == t[n];
    }
  }

  lemma EscapeOne(c: byte)
    ensures Escape([c]) == EscapeChar(c)
  {
    assert [c][..0] == [];
  }

  /** What an escaped character turns into is not escaped again. */
  lemma EscapeOnce(letter: byte)
    requires IsEscapeLetter(letter)
    ensures Escape([0x5C, letter]) == [0x5C, letter]
  {
    EscapeAppends([0x5C], [letter]);
    EscapeOne(0x5C);
    EscapeOne(letter);
    assert [0x5C] + [letter] == [0x5C, letter];
  }

  lemma {:induction false} PlainTextStays(s: seq<byte>)
    requires forall c :: c in s ==> !IsEscaped(c)
    ensures Escape(s) == s
    decreases |s|
  {
    if s != [] {
      var n := |s| - 1;
      PlainTextStays(s[..n]);
      assert s[..n] + [s[n]] == s && s[n] in s;
    }
  }

  lemma EscapeInTheMiddle(a: seq<byte>, b: seq<byte>, c: seq<byte>)
    ensures Escape(a + b + c) == Escape(a) + Escape(b) + Escape(c)
  {
    EscapeAppends(a + b, c);
    EscapeAppends(a, b);
  }

  lemma EscapedShows(s: seq<byte>, i: nat)
    requires i < |s| && IsEscaped(s[i])
    ensures exists k :: LooksEscaped(Escape(s), k)
  {
    hide Escape;
    EscapeInTheMiddle(s[..i], [s[i]], s[i + 1..]);
    EscapeOne(s[i]);
    assert s == s[..i] + [s[i]] + s[i + 1..];
    assert LooksEscaped(Escape(s), |Escape(s[..i])|);
  }

  /** Two middles with the same escape make two texts with the same escape. */
  lemma SwapMiddle(a: seq<byte>, b: seq<byte>, b': seq<byte>, c: seq<byte>)
    requires Escape(b) == Escape(b') && |b| != |b'|
    ensures Escape(a + b + c) == Escape(a + b' + c) && a + b + c != a + b' + c
  {
    hide Escape;
    EscapeInTheMiddle(a, b, c);
    EscapeInTheMiddle(a, b', c);
    assert |a + b + c| != |a + b' + c|;
  }

  /** A text can be told from its escape exactly if it holds no escaped character and nothing that looks like one. */
  lemma EscapeIsFaithfulIff(s: seq<byte>)
    ensures (forall t :: Escape(t) == Escape(s) ==> t == s)
        <==> (forall c :: c in s ==> !IsEscaped(c)) && (forall i :: !LooksEscaped(s, i))
  {
    hide Escape, EscapeChar, IsEscaped;
    if i: nat :| i < |s| && IsEscaped(s[i]) {
      EscapeOne(s[i]);
      var pair := EscapeChar(s[i]);
      EscapedPair(s[i]);
      EscapeOnce(pair[1]);
      SwapMiddle(s[..i], [s[i]], pair, s[i + 1..]);
      assert s == s[..i] + [s[i]] + s[i + 1..];
    } else if i: nat :| LooksEscaped(s, i) {
      var c := Unescaped(s[i + 1]);
      EscapeOne(c);
      EscapeOnce(s[i + 1]);
      SwapMiddle(s[..i], [0x5C, s[i + 1]], [c], s[i + 2..]);
      assert s == s[..i] + [0x5C, s[i + 1]] + s[i + 2..];
    } else {
      PlainTextStays(s);
      forall t | Escape(t) == Escape(s)
        ensures t == s
      {
        if i: nat :| i < |t| && IsEscaped(t[i]) {
          EscapedShows(t, i);
        } else {
          PlainTextStays(t);
        }
      }
    }
  }

  lemma EscapedPair(c: byte)
    requires IsEscaped(c)
    ensures |EscapeChar(c)| == 2 && EscapeChar(c)[0] == 0x5C && IsEscapeLetter(EscapeChar(c)[1])
    ensures EscapeChar(c) == [0x5C, EscapeChar(c)[1]]
  {
  }

  // ----- Reference: reading the escapes back

  /** What a C program reads for a backslash followed by this letter. */
  function Meaning(letter: char): byte
    requires letter in "nrtvfab"
  {
    if letter == 'n' then 10         // line feed
    else if letter == 'r' then 13    // carriage return
    else if letter == 't' then 9     // horizontal tab
    else if letter == 'v' then 11    // vertical tab
    else if letter == 'f' then 12    // form feed
    else if letter == 'a' then 7     // bell
    else 8                           // backspace
  }

  function Unescape(s: seq<byte>): (t: seq<byte>)
    ensures |t| <= |s|
  {
    if s == [] then []
    else if |s| > 1 && s[0] == '\\' as int && s[1] as char in "nrtvfab" then [Meaning(s[1] as char)] + Unescape(s[2..])
    else [s[0]] + Unescape(s[1..])
  }

  lemma LettersMean(c: byte)
    ensures IsEscapeLetter(c) <==> c as char in "nrtvfab"
    ensures IsEscaped(c) ==> |EscapeChar(c)| == 2 && EscapeChar(c)[0] == 0x5C
                             && IsEscapeLetter(EscapeChar(c)[1]) && Meaning(EscapeChar(c)[1] as char) == c
    ensures !IsEscaped(c) ==> EscapeChar(c) == [c]
  {
  }

  lemma EscapeFromFront(s: seq<byte>)
    requires s != []
    ensures Escape(s) == EscapeChar(s[0]) + Escape(s[1..])
  {
    hide EscapeChar;
    EscapeAppends([s[0]], s[1..]);
    EscapeOne(s[0]);
    assert [s[0]] + s[1..] == s;
  }

  lemma UnescapePair(letter: byte, rest: seq<byte>)
    requires IsEscapeLetter(letter)
    ensures letter as char in "nrtvfab"
    ensures Unescape([0x5C, letter] + rest) == [Meaning(letter as char)] + Unescape(rest)
  {
    LettersMean(letter);
    assert ([0x5C, letter] + rest)[2..] == rest;
  }

  lemma UnescapeOther(c: byte, rest: seq<byte>)
    requires c != 0x5C || rest == [] || !IsEscapeLetter(rest[0])
    ensures Unescape([c] + rest) == [c] + Unescape(rest)
  {
    if rest != [] {
      LettersMean(rest[0]);
    }
    assert ([c] + rest)[1..] == rest;
  }

  /** The first byte of an escape is a letter only if that of the text is. */
  lemma FirstOfEscape(s: seq<byte>)
    requires s != []
    ensures Escape(s) != [] && (IsEscapeLetter(Escape(s)[0]) <==> IsEscapeLetter(s[0]))
  {
    EscapeFromFront(s);
  }

  lemma ShiftLook(s: seq<byte>, i: nat)
    requires s != []
    ensures LooksEscaped(s, i + 1) <==> LooksEscaped(s[1..], i)
  {
  }

  /** One step of reading back an escape. */
  lemma UnescapeStep(s: seq<byte>)
    requires s != []
    ensures Unescape(Escape(s)) ==
      if LooksEscaped(s, 0) then [Meaning(s[1] as char)] + Unescape(Escape(s[2..]))
      else [s[0]] + Unescape(Escape(s[1..]))
  {
    hide Escape, EscapeChar, Unescape, IsEscaped, IsEscapeLetter, Meaning;
    var rest := s[1..];
    EscapeFromFront(s);
    LettersMean(s[0]);
    if IsEscaped(s[0]) {
      var e := EscapeChar(s[0]);
      assert e == [0x5C, e[1]];
      LettersMean(0x5C);
      BackslashStays();
      UnescapePair(e[1], Escape(rest));
    } else if LooksEscaped(s, 0) {
      LettersMean(s[1]);
      LetterStays(s[1]);
      EscapeFromFront(rest);
      assert rest[1..] == s[2..] && [0x5C] + ([s[1]] + Escape(s[2..])) == [0x5C, s[1]] + Escape(s[2..]);
      UnescapePair(s[1], Escape(s[2..]));
    } else {
      if rest != [] {
        FirstOfEscape(rest);
      } else {
        NothingEscaped();
      }
      UnescapeOther(s[0], Escape(rest));
    }
  }

  lemma BackslashStays()
    ensures !IsEscaped(0x5C)
  {
  }

  lemma LetterStays(c: byte)
    requires IsEscapeLetter(c)
    ensures EscapeChar(c) == [c]
  {
  }

  /** Reading the escapes back gives the text, exactly if no backslash in it is followed by an escape letter. */
  lemma {:induction false} UnescapeInvertsIff(s: seq<byte>)
    ensures |Unescape(Escape(s))| <= |s|
    ensures Unescape(Escape(s)) == s <==> forall i: nat :: !LooksEscaped(s, i)
    decreases |s|
  {
    hide Escape, Unescape, LooksEscaped, Meaning;
    if s == [] {
      NothingEscaped();
      NothingLooksEscaped();
    } else {
      UnescapeStep(s);
      if LooksEscaped(s, 0) {
        LookIsLong(s);
        UnescapeInvertsIff(s[2..]);
      } else {
        UnescapeInvertsIff(s[1..]);
        assert [s[0]] + s[1..] == s;
        forall i: nat
          ensures LooksEscaped(s[1..], i) <==> LooksEscaped(s, i + 1)
        {
          ShiftLook(s, i);
        }
        if forall i: nat :: !LooksEscaped(s[1..], i) {
          forall i: nat
            ensures !LooksEscaped(s, i)
          {
            if i > 0 {
              assert !LooksEscaped(s[1..], i - 1);
            }
          }
        } else {
          assert ([s[0]] + Unescape(Escape(s[1..])))[1..] == Unescape(Escape(s[1..]));
        }
      }
    }
  }

  lemma NothingLooksEscaped()
    ensures forall i: nat :: !LooksEscaped([], i)
  {
  }

  lemma LookIsLong(s: seq<byte>)
    requires LooksEscaped(s, 0)
    ensures |s| >= 2
  {
  }

  lemma NothingEscaped()
    ensures Escape([]) == [] && Unescape([]) == []
  {
  }

  /** The shortest witness: a line feed and a backslash followed by n are reported alike. */
  lemma EscapeIsNotInjective()
    ensures Escape([0x0A]) == Escape([0x5C, 0x6E])
  {
    EscapeOne(0x0A);
    EscapeOnce(0x6E);
  }
}
