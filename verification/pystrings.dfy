/** The Python string operations the core depends on: `str.split()` with no
    separator, `str.split(sep)` with a one-character separator, and
    `str.strip()`. Characters are Unicode code points, as in Python 3. */
module PyStrings {

  /** `str.isspace()` for one character: the characters Python treats as
      whitespace when splitting and stripping. */
  predicate IsSpace(c: char) {
    ('\t' <= c <= '\r') || ('\U{1c}' <= c <= '\U{1f}') || c == ' ' ||
    c == '\U{85}' || c == '\U{a0}' || c == '\U{1680}' ||
    ('\U{2000}' <= c <= '\U{200a}') || c == '\U{2028}' || c == '\U{2029}' ||
    c == '\U{202f}' || c == '\U{205f}' || c == '\U{3000}'
  }

  predicate NoSpace(w: string) {
    forall i :: 0 <= i < |w| ==> !IsSpace(w[i])
  }

  /** Number of whitespace characters the input starts with. */
  function LeadingSpaces(s: string): (n: nat)
    ensures n <= |s| && (n < |s| ==> !IsSpace(s[n]))
    ensures forall i :: 0 <= i < n ==> IsSpace(s[i])
  {
    if s == [] || !IsSpace(s[0]) then 0 else 1 + LeadingSpaces(s[1..])
  }

  /** Length of the input without its trailing whitespace. */
  function TrimmedLength(s: string): (n: nat)
    ensures n <= |s| && (n > 0 ==> !IsSpace(s[n - 1]))
    ensures forall i :: n <= i < |s| ==> IsSpace(s[i])
  {
    if s == [] || !IsSpace(s[|s| - 1]) then |s| else TrimmedLength(s[..|s| - 1])
  }

  /** The input without its leading whitespace. */
  function LStrip(s: string): (t: string)
    ensures |t| <= |s| && (t == [] || !IsSpace(t[0]))
  {
    s[LeadingSpaces(s)..]
  }

  /** The input without its trailing whitespace. */
  function RStrip(s: string): (t: string)
    ensures |t| <= |s| && (t == [] || !IsSpace(t[|t| - 1]))
  {
    s[..TrimmedLength(s)]
  }

  /** `str.strip()`: the input without leading and trailing whitespace. */
  function Strip(s: string): (t: string)
    ensures |t| <= |LStrip(s)| <= |s|
    ensures t == [] || (!IsSpace(t[0]) && !IsSpace(t[|t| - 1]))
  {
    RStrip(LStrip(s))
  }

  /** `strip` keeps a slice of the input, and removes only whitespace in
      front of it. */
  lemma StripSlice(s: string)
    ensures var t, i := Strip(s), LeadingSpaces(s);
      && t == s[i..i + |t|]
      && (forall j :: 0 <= j < i ==> IsSpace(s[j]))
  {
    var i := LeadingSpaces(s);
    assert Strip(s) == s[i..][..TrimmedLength(s[i..])];
  }

  /** What `strip` removes behind the kept slice is whitespace as well. */
  lemma StripTrailing(s: string)
    ensures var t, i := Strip(s), LeadingSpaces(s);
      forall j :: i + |t| <= j < |s| ==> IsSpace(s[j])
  {
    var i := LeadingSpaces(s);
    var l := s[i..];
    var n := TrimmedLength(l);
    assert |Strip(s)| == n;
    forall j | i + n <= j < |s| ensures IsSpace(s[j]) {
      assert s[j] == l[j - i];
    }
  }

  /** A string with no whitespace at either end is left as it is. */
  lemma StripUnpadded(s: string)
    requires s == [] || (!IsSpace(s[0]) && !IsSpace(s[|s| - 1]))
    ensures Strip(s) == s
  {
  }

  /** Stripping twice is stripping once. */
  lemma StripIdempotent(s: string)
    ensures Strip(Strip(s)) == Strip(s)
  {
    StripUnpadded(Strip(s));
  }

  /** Length of the run of non-whitespace characters the input starts with. */
  function WordLength(s: string): (n: nat)
    ensures n <= |s| && NoSpace(s[..n])
    ensures n < |s| ==> IsSpace(s[n])
    ensures s != [] && !IsSpace(s[0]) ==> n >= 1
  {
    if s == [] || IsSpace(s[0]) then 0 else 1 + WordLength(s[1..])
  }

  /** `str.split()`: the maximal runs of non-whitespace characters, in order. */
  function Split(s: string): (words: seq<string>)
    ensures forall w :: w in words ==> w != [] && NoSpace(w)
  {
    Words(LStrip(s))
  }

  /** The words of a string that does not start with whitespace. */
  function Words(t: string): (words: seq<string>)
    requires t == [] || !IsSpace(t[0])
    ensures forall w :: w in words ==> w != [] && NoSpace(w)
    decreases |t|
  {
    if t == [] then []
    else
      var n := WordLength(t);
      [t[..n]] + Words(LStrip(t[n..]))
  }

  /** The words joined with one space between each two (`" ".join`). */
  function Spaced(words: seq<string>): string {
    if |words| <= 1 then (if words == [] then "" else words[0])
    else words[0] + " " + Spaced(words[1..])
  }

  lemma {:induction false} WordLengthOfWord(w: string, rest: string)
    requires NoSpace(w) && (rest == [] || IsSpace(rest[0]))
    ensures WordLength(w + rest) == |w|
    decreases |w|
  {
    if w != [] {
      assert (w + rest)[1..] == w[1..] + rest;
      WordLengthOfWord(w[1..], rest);
    } else {
      assert w + rest == rest;
    }
  }

  /** A word followed by whitespace or nothing is the first word. */
  lemma SplitWordThen(w: string, rest: string)
    requires w != [] && NoSpace(w) && (rest == [] || IsSpace(rest[0]))
    ensures Split(w + rest) == [w] + Split(rest)
  {
    var s := w + rest;
    assert s[0] == w[0];
    assert LStrip(s) == s;
    WordLengthOfWord(w, rest);
    assert s[..|w|] == w;
    assert s[|w|..] == rest;
    assert Split(s) == Words(s);
  }

  /** A leading whitespace character is stripped with the rest. */
  lemma LStripSpace(c: char, s: string)
    requires IsSpace(c)
    ensures LStrip([c] + s) == LStrip(s)
  {
    var a := [c] + s;
    assert a[1..] == s;
    assert a != [] && IsSpace(a[0]);
  }

  /** Leading whitespace does not change the words. */
  lemma SplitLeadingSpace(c: char, s: string)
    requires IsSpace(c)
    ensures Split([c] + s) == Split(s)
  {
    LStripSpace(c, s);
  }

  /** A word followed by a space is the first word. */
  lemma SplitWordSpace(w: string, rest: string)
    requires w != [] && NoSpace(w)
    ensures Split(w + " " + rest) == [w] + Split(rest)
  {
    assert w + " " + rest == w + (" " + rest);
    SplitWordThen(w, " " + rest);
    SplitLeadingSpace(' ', rest);
  }

  /** Splitting undoes joining with spaces: `" ".join(ws).split() == ws`
      whenever no word is empty or holds whitespace. */
  lemma {:induction false} SplitSpaced(words: seq<string>)
    requires forall w :: w in words ==> w != [] && NoSpace(w)
    ensures Split(Spaced(words)) == words
    decreases |words|
  {
    if words == [] {
    } else if |words| == 1 {
      var w := words[0];
      assert w in words;
      SplitWordThen(w, "");
      assert w + "" == w;
    } else {
      var w, rest := words[0], Spaced(words[1..]);
      assert w in words;
      assert forall v :: v in words[1..] ==> v in words;
      SplitWordSpace(w, rest);
      SplitSpaced(words[1..]);
      assert words == [w] + words[1..];
    }
  }

  /** The words run together (`"".join`). */
  function Concat(words: seq<string>): string {
    if words == [] then "" else words[0] + Concat(words[1..])
  }

  /** The input with every whitespace character removed. */
  function NonSpace(s: string): (t: string)
    ensures |t| <= |s| && NoSpace(t)
  {
    if s == [] then ""
    else
      var rest := NonSpace(s[1..]);
      if IsSpace(s[0]) then rest
      else
        assert forall i :: 1 <= i < |[s[0]] + rest| ==> ([s[0]] + rest)[i] == rest[i - 1];
        [s[0]] + rest
  }

  lemma {:induction false} NonSpaceAppend(a: string, b: string)
    ensures NonSpace(a + b) == NonSpace(a) + NonSpace(b)
    decreases |a|
  {
    if a == [] {
      assert a + b == b;
    } else {
      assert (a + b)[1..] == a[1..] + b;
      NonSpaceAppend(a[1..], b);
    }
  }

  lemma {:induction false} NonSpaceOfWord(w: string)
    requires NoSpace(w)
    ensures NonSpace(w) == w
    decreases |w|
  {
    if w != [] {
      NonSpaceOfWord(w[1..]);
      assert w == [w[0]] + w[1..];
    }
  }

  lemma {:induction false} NonSpaceOfSpaces(w: string)
    requires forall i :: 0 <= i < |w| ==> IsSpace(w[i])
    ensures NonSpace(w) == ""
    decreases |w|
  {
    if w != [] {
      NonSpaceOfSpaces(w[1..]);
    }
  }

  /** Stripping in front removes only whitespace. */
  lemma NonSpaceLStrip(s: string)
    ensures NonSpace(LStrip(s)) == NonSpace(s)
  {
    var n := LeadingSpaces(s);
    assert s == s[..n] + s[n..];
    NonSpaceAppend(s[..n], s[n..]);
    NonSpaceOfSpaces(s[..n]);
  }

  /** The words of a string hold all of its non-whitespace characters, in order. */
  lemma {:induction false} WordsKeepText(t: string)
    requires t == [] || !IsSpace(t[0])
    ensures Concat(Words(t)) == NonSpace(t)
    decreases |t|
  {
    if t != [] {
      var n := WordLength(t);
      var word, tail := t[..n], t[n..];
      var rest := LStrip(tail);
      var ws := Words(rest);
      assert Words(t) == [word] + ws;
      assert ([word] + ws)[1..] == ws;
      calc {
        Concat(Words(t));
        word + Concat(ws);
        { WordsKeepText(rest); }
        word + NonSpace(rest);
        { NonSpaceLStrip(tail); }
        word + NonSpace(tail);
        { NonSpaceOfWord(word); }
        NonSpace(word) + NonSpace(tail);
        { NonSpaceAppend(word, tail); assert t == word + tail; }
        NonSpace(t);
      }
    }
  }

  /** `"".join(s.split())` is `s` without its whitespace: splitting loses no
      other character and reorders nothing. */
  lemma SplitKeepsText(s: string)
    ensures Concat(Split(s)) == NonSpace(s)
  {
    WordsKeepText(LStrip(s));
    NonSpaceLStrip(s);
  }

  /** `str.split(sep)` for one separator character: the pieces between
      separators, empty ones included; never an empty list. */
  function SplitOn(s: string, sep: char): (pieces: seq<string>)
    ensures |pieces| >= 1
    ensures forall p :: p in pieces ==> sep !in p
    decreases |s|
  {
    if s == [] then [""]
    else
      var r := SplitOn(s[1..], sep);
      if s[0] == sep then [""] + r else [[s[0]] + r[0]] + r[1..]
  }

  /** Number of occurrences of `c` in `s`. */
  function Occurrences(s: string, c: char): (n: nat)
    ensures n <= |s|
    ensures n == 0 <==> c !in s
  {
    if s == [] then 0 else (if s[0] == c then 1 else 0) + Occurrences(s[1..], c)
  }

  /** There is one piece more than there are separators. */
  lemma {:induction false} SplitOnCount(s: string, sep: char)
    ensures |SplitOn(s, sep)| == Occurrences(s, sep) + 1
    decreases |s|
  {
    if s != [] {
      SplitOnCount(s[1..], sep);
    }
  }

  /** `sep.join(pieces)`. */
  function JoinOn(pieces: seq<string>, sep: char): string {
    if |pieces| <= 1 then (if pieces == [] then "" else pieces[0])
    else pieces[0] + [sep] + JoinOn(pieces[1..], sep)
  }

  /** Joining the pieces gives back the input: splitting loses nothing. */
  lemma {:induction false} JoinSplitOn(s: string, sep: char)
    ensures JoinOn(SplitOn(s, sep), sep) == s
    decreases |s|
  {
    if s != [] {
      var r := SplitOn(s[1..], sep);
      JoinSplitOn(s[1..], sep);
      if s[0] == sep {
        assert SplitOn(s, sep) == [""] + r;
        assert ([""] + r)[1..] == r;
        assert s == [s[0]] + s[1..];
      } else {
        var p := [[s[0]] + r[0]] + r[1..];
        assert SplitOn(s, sep) == p;
        if |r| == 1 {
          assert s == [s[0]] + r[0];
        } else {
          assert p[1..] == r[1..];
          assert JoinOn(r, sep) == r[0] + [sep] + JoinOn(r[1..], sep);
          assert s == [s[0]] + (r[0] + [sep] + JoinOn(r[1..], sep));
        }
      }
    }
  }

  /** Splitting a piece with no separator, then prepending a separator-free
      character, extends the first piece. */
  lemma {:induction false} SplitOnPrefix(p: string, rest: string, sep: char)
    requires sep !in p
    ensures SplitOn(p + rest, sep) == [p + SplitOn(rest, sep)[0]] + SplitOn(rest, sep)[1..]
    decreases |p|
  {
    if p == [] {
      assert p + rest == rest;
      assert p + SplitOn(rest, sep)[0] == SplitOn(rest, sep)[0];
      assert SplitOn(rest, sep) == [SplitOn(rest, sep)[0]] + SplitOn(rest, sep)[1..];
    } else {
      assert (p + rest)[1..] == p[1..] + rest;
      assert p[0] != sep by { assert p[0] in p; }
      SplitOnPrefix(p[1..], rest, sep);
      assert [p[0]] + (p[1..] + SplitOn(rest, sep)[0]) == p + SplitOn(rest, sep)[0];
    }
  }

  /** A leading separator closes an empty first piece. */
  lemma SplitOnLeadingSep(rest: string, sep: char)
    ensures SplitOn([sep] + rest, sep) == [""] + SplitOn(rest, sep)
  {
    assert ([sep] + rest)[1..] == rest;
  }

  /** A separator-free piece followed by a separator is the first piece. */
  lemma SplitAfterPiece(p: string, rest: string, sep: char)
    requires sep !in p
    ensures SplitOn(p + [sep] + rest, sep) == [p] + SplitOn(rest, sep)
  {
    var tail := [sep] + rest;
    assert p + [sep] + rest == p + tail;
    SplitOnLeadingSep(rest, sep);
    SplitOnPrefix(p, tail, sep);
    assert p + "" == p;
  }

  /** Splitting undoes joining, for pieces free of the separator. */
  lemma {:induction false} SplitJoinOn(pieces: seq<string>, sep: char)
    requires |pieces| >= 1 && forall p :: p in pieces ==> sep !in p
    ensures SplitOn(JoinOn(pieces, sep), sep) == pieces
    decreases |pieces|
  {
    var p := pieces[0];
    assert p in pieces;
    if |pieces| == 1 {
      SplitOnPrefix(p, "", sep);
      assert p + "" == p;
    } else {
      var others := pieces[1..];
      assert forall q :: q in others ==> q in pieces;
      SplitJoinOn(others, sep);
      SplitAfterPiece(p, JoinOn(others, sep), sep);
      assert pieces == [p] + others;
    }
  }
}
