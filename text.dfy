/** The few pieces of Python string and text-file behaviour the script relies on:
    `str.strip()`, `str.lower()` compared with an ASCII word, and iterating over a
    file opened in text mode (universal newlines, lines keep their terminator). */
module Text {

  /** Python's `str.isspace` on one character: the code points that `str.strip()`
      with no argument removes. */
  predicate IsSpace(c: char) {
    ('\t' <= c <= '\r') || ('\U{1C}' <= c <= '\U{1F}') || c == ' ' ||
    c == '\U{85}' || c == '\U{A0}' || c == '\U{1680}' ||
    ('\U{2000}' <= c <= '\U{200A}') || c == '\U{2028}' || c == '\U{2029}' ||
    c == '\U{202F}' || c == '\U{205F}' || c == '\U{3000}'
  }

  /** `s.lstrip()`. */
  function TrimLeft(s: string): string {
    if s != [] && IsSpace(s[0]) then TrimLeft(s[1..]) else s
  }

  /** `s.rstrip()`. */
  function TrimRight(s: string): string {
    if s != [] && IsSpace(s[|s| - 1]) then TrimRight(s[..|s| - 1]) else s
  }

  /** `lstrip` leaves the suffix of `s` that starts at its first non-space
      character. */
  lemma {:induction false} TrimLeftSpec(s: string)
    ensures |TrimLeft(s)| <= |s| && TrimLeft(s) == s[|s| - |TrimLeft(s)|..]
    ensures forall k :: 0 <= k < |s| - |TrimLeft(s)| ==> IsSpace(s[k])
    ensures TrimLeft(s) == [] || !IsSpace(TrimLeft(s)[0])
  {
    if s != [] && IsSpace(s[0]) {
      var t := s[1..];
      TrimLeftSpec(t);
      var r := TrimLeft(t);
      assert TrimLeft(s) == r;
      assert t[|t| - |r|..] == s[|s| - |r|..];
      forall k | 0 <= k < |s| - |r| ensures IsSpace(s[k]) {
        if k > 0 {
          assert s[k] == t[k - 1];
        }
      }
    }
  }

  /** `rstrip` leaves the prefix of `s` that ends at its last non-space
      character. */
  lemma {:induction false} TrimRightSpec(s: string)
    ensures |TrimRight(s)| <= |s| && TrimRight(s) == s[..|TrimRight(s)|]
    ensures forall k :: |TrimRight(s)| <= k < |s| ==> IsSpace(s[k])
    ensures TrimRight(s) == [] || !IsSpace(TrimRight(s)[|TrimRight(s)| - 1])
  {
    if s != [] && IsSpace(s[|s| - 1]) {
      var t := s[..|s| - 1];
      TrimRightSpec(t);
      var r := TrimRight(t);
      assert TrimRight(s) == r;
      assert t[..|r|] == s[..|r|];
      forall k | |r| <= k < |s| ensures IsSpace(s[k]) {
        if k < |s| - 1 {
          assert s[k] == t[k];
        }
      }
    }
  }

  /** `s.strip()`: neither end of the result is whitespace. */
  function Trim(s: string): (r: string)
    ensures r == [] || (!IsSpace(r[0]) && !IsSpace(r[|r| - 1]))
  {
    TrimLeftSpec(s);
    TrimRightSpec(TrimLeft(s));
    TrimRight(TrimLeft(s))
  }

  /** Stripping only removes characters. */
  lemma TrimChars(s: string, c: char)
    requires c in Trim(s)
    ensures c in s
  {
    TrimLeftSpec(s);
    TrimRightSpec(TrimLeft(s));
  }

  /** Stripping keeps exactly the non-space text: the result is empty iff every
      character of `s` is whitespace. */
  lemma TrimEmpty(s: string)
    ensures Trim(s) == [] <==> forall k :: 0 <= k < |s| ==> IsSpace(s[k])
  {
    var l := TrimLeft(s);
    TrimLeftSpec(s);
    TrimRightSpec(l);
    if Trim(s) == [] {
      assert l == [];
    } else {
      assert !IsSpace(s[|s| - |l|]);
    }
  }

  /** A string without surrounding whitespace is its own strip. */
  lemma TrimOfTrimmed(s: string)
    requires s == [] || (!IsSpace(s[0]) && !IsSpace(s[|s| - 1]))
    ensures Trim(s) == s
  {
  }

  /** Stripping is idempotent. */
  lemma TrimIdempotent(s: string)
    ensures Trim(Trim(s)) == Trim(s)
  {
    TrimOfTrimmed(Trim(s));
  }

  /** Trailing whitespace does not change the strip. */
  lemma TrimTrailingSpace(s: string, c: char)
    requires IsSpace(c)
    ensures Trim(s + [c]) == Trim(s)
  {
    var l := TrimLeft(s);
    TrimLeftSpec(s);
    if l == [] {
      TrimLeftSpec(s + [c]);
      assert TrimLeft(s + [c]) == [];
    } else {
      TrimLeftAppend(s, [c]);
      assert TrimLeft(s + [c]) == l + [c];
      assert (l + [c])[..|l|] == l;
    }
  }

  /** Text appended after a non-blank string does not change how much is
      stripped from the front. */
  lemma {:induction false} TrimLeftAppend(s: string, t: string)
    requires TrimLeft(s) != []
    ensures TrimLeft(s + t) == TrimLeft(s) + t
  {
    if IsSpace(s[0]) {
      assert (s + t)[1..] == s[1..] + t;
      TrimLeftAppend(s[1..], t);
    }
  }

  /** Each line stripped, as `input().strip()` strips each typed line. */
  function Trims(lines: seq<string>): seq<string> {
    seq(|lines|, k requires 0 <= k < |lines| => Trim(lines[k]))
  }

  /** Python's `str.lower()` on one character, for the characters whose lower
      case is a single ASCII letter: `A`-`Z` and the KELVIN SIGN (U+212A, whose
      lower case is `k`). Every other character is returned unchanged. */
  function LowerChar(c: char): char {
    if 'A' <= c <= 'Z' then (c as int + 32) as char
    else if c == '\U{212A}' then 'k'
    else c
  }

  /** `s.lower()`, exact whenever the result is compared with a word made of
      ASCII lower-case letters: no other character lowers to an ASCII letter, and
      the only character that lowers to two (U+0130) yields U+0307 beside `i`. */
  function Lower(s: string): (r: string)
    ensures |r| == |s|
    ensures forall k :: 0 <= k < |s| ==> r[k] == LowerChar(s[k])
  {
    if s == [] then [] else [LowerChar(s[0])] + Lower(s[1..])
  }

  /** `s.lower() == 'skip'`, compared character by character. */
  predicate IsSkipWord(s: string) {
    |s| == 4 && LowerChar(s[0]) == 's' && LowerChar(s[1]) == 'k' &&
    LowerChar(s[2]) == 'i' && LowerChar(s[3]) == 'p'
  }

  /** The character-wise comparison is `lower()` followed by string equality. */
  lemma SkipWordIsLowerSkip(s: string)
    ensures IsSkipWord(s) <==> Lower(s) == "skip"
  {
    if IsSkipWord(s) {
      var l := Lower(s);
      assert l == [l[0], l[1], l[2], l[3]];
    }
  }

  /** The characters that lower-case to each letter of `skip`. */
  lemma LowerCharToSkipLetter(c: char)
    ensures LowerChar(c) == 's' <==> c == 's' || c == 'S'
    ensures LowerChar(c) == 'k' <==> c == 'k' || c == 'K' || c == '\U{212A}'
    ensures LowerChar(c) == 'i' <==> c == 'i' || c == 'I'
    ensures LowerChar(c) == 'p' <==> c == 'p' || c == 'P'
  {
  }

  /** The strings that `lower()` turns into `skip`: each letter in either case,
      and the KELVIN SIGN in place of the `k`. */
  lemma SkipSpellings(s: string)
    ensures Lower(s) == "skip" <==>
      |s| == 4 && (s[0] == 's' || s[0] == 'S') &&
      (s[1] == 'k' || s[1] == 'K' || s[1] == '\U{212A}') &&
      (s[2] == 'i' || s[2] == 'I') && (s[3] == 'p' || s[3] == 'P')
  {
    SkipWordIsLowerSkip(s);
    if |s| == 4 {
      LowerCharToSkipLetter(s[0]);
      LowerCharToSkipLetter(s[1]);
      LowerCharToSkipLetter(s[2]);
      LowerCharToSkipLetter(s[3]);
    }
  }

  /** Universal-newline translation done by Python when it reads a file in text
      mode: `\r\n` and a lone `\r` both become `\n`. */
  function Translate(t: string): (r: string)
    ensures '\r' !in r
    decreases |t|
  {
    if t == [] then []
    else if t[0] == '\r' then
      "\n" + Translate(if |t| > 1 && t[1] == '\n' then t[2..] else t[1..])
    else [t[0]] + Translate(t[1..])
  }

  /** The three cases of the translation: `\r\n` becomes `\n`, a `\r` not
      followed by `\n` becomes `\n`, and any other character is kept. */
  lemma TranslateCases(c: char, t: string)
    ensures Translate("\r\n" + t) == "\n" + Translate(t)
    ensures t == [] || t[0] != '\n' ==> Translate("\r" + t) == "\n" + Translate(t)
    ensures c != '\r' ==> Translate([c] + t) == [c] + Translate(t)
  {
    assert ("\r\n" + t)[2..] == t;
    assert ("\r" + t)[1..] == t;
    assert ([c] + t)[1..] == t;
  }

  /** Text with no carriage return reads back unchanged. */
  lemma {:induction false} TranslateIdentity(t: string)
    requires '\r' !in t
    ensures Translate(t) == t
  {
    if t != [] {
      assert '\r' !in t[1..];
      TranslateIdentity(t[1..]);
    }
  }

  /** Index of the first `\n` of `t`, or `|t|` when there is none. */
  function NewlineIndex(t: string): (k: nat)
    ensures k <= |t|
    ensures '\n' !in t[..k]
    ensures k < |t| ==> t[k] == '\n'
  {
    if t == [] || t[0] == '\n' then 0
    else
      var k := 1 + NewlineIndex(t[1..]);
      assert t[..k] == [t[0]] + t[1..][..k - 1];
      k
  }

  /** The lines that `for line in f` yields: each keeps its `\n`, except a last
      line that the text does not end with a newline. */
  function FileLines(t: string): (ls: seq<string>)
    ensures forall l :: l in ls ==> l != [] && '\n' !in l[..|l| - 1]
    ensures forall i :: 0 <= i < |ls| - 1 ==> ls[i][|ls[i]| - 1] == '\n'
    decreases |t|
  {
    if t == [] then []
    else
      var k := NewlineIndex(t);
      if k == |t| then [t]
      else
        assert t[..k + 1][..k] == t[..k];
        [t[..k + 1]] + FileLines(t[k + 1..])
  }

  /** Concatenation of a sequence of strings. */
  function Concat(ls: seq<string>): string {
    if ls == [] then [] else ls[0] + Concat(ls[1..])
  }

  /** Splitting into lines loses no text. */
  lemma {:induction false} FileLinesConcat(t: string)
    ensures Concat(FileLines(t)) == t
    decreases |t|
  {
    if t != [] {
      var k := NewlineIndex(t);
      if k < |t| {
        FileLinesConcat(t[k + 1..]);
        assert t == t[..k + 1] + t[k + 1..];
      }
    }
  }

  /** Splitting into lines adds no character. */
  lemma {:induction false} FileLinesNoCarriageReturn(t: string)
    requires '\r' !in t
    ensures forall l :: l in FileLines(t) ==> '\r' !in l
    decreases |t|
  {
    if t != [] {
      var k := NewlineIndex(t);
      if k < |t| {
        assert t == t[..k + 1] + t[k + 1..];
        FileLinesNoCarriageReturn(t[k + 1..]);
      }
    }
  }

  /** A newline-free text followed by `\n` is read as a single line. */
  lemma FileLinesOfLine(e: string)
    requires '\n' !in e
    ensures FileLines(e + "\n") == [e + "\n"]
  {
    FileLinesCons(e, []);
    assert e + "\n" + [] == e + "\n";
  }

  /** A newline-free line followed by `\n` is read as one line. */
  lemma FileLinesCons(e: string, rest: string)
    requires '\n' !in e
    ensures FileLines(e + "\n" + rest) == [e + "\n"] + FileLines(rest)
  {
    var t := e + "\n" + rest;
    var k := NewlineIndex(t);
    assert t[..|e|] == e;
    assert t[|e|] == '\n';
    assert t[..k + 1] == e + "\n";
    assert t[k + 1..] == rest;
  }
}
