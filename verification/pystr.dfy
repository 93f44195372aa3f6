/** The handful of Python `str` operations the application is built from:
    `split(sep)`, `sep.join(parts)`, `replace(from, to)` with one-character
    arguments, whitespace `split()` and ASCII `capitalize()`. */
module PyStr {
  import opened Seqs

  /** Python's `str.isspace()` on one character: the Unicode White_Space
      characters plus the information separators U+001C..U+001F, which
      `str.split()` with no argument also splits on. */
  predicate IsSpace(c: char) {
    var n := c as int;
    (0x09 <= n <= 0x0D) || (0x1C <= n <= 0x20) || n == 0x85 || n == 0xA0
    || n == 0x1680 || (0x2000 <= n <= 0x200A) || n == 0x2028 || n == 0x2029
    || n == 0x202F || n == 0x205F || n == 0x3000
  }

  /** No character of `s` is whitespace. */
  predicate NoSpace(s: string) {
    forall i :: 0 <= i < |s| ==> !IsSpace(s[i])
  }

  /** Every character of `s` is whitespace (true of the empty string). */
  predicate AllSpace(s: string) {
    forall i :: 0 <= i < |s| ==> IsSpace(s[i])
  }

  /** `sep.join(parts)`. */
  function Join(parts: seq<string>, sep: string): string
  {
    if |parts| == 0 then ""
    else if |parts| == 1 then parts[0]
    else parts[0] + sep + Join(parts[1..], sep)
  }

  /** `s.split(sep)` for a one-character separator: the pieces between
      separators, always at least one, and joining them back with the
      separator gives `s` again. */
  function Split(s: string, sep: char): (parts: seq<string>)
    ensures |parts| >= 1
    ensures forall i :: 0 <= i < |parts| ==> sep !in parts[i]
    ensures Join(parts, [sep]) == s
    decreases |s|
  {
    if sep !in s then [s]
    else
      var i := FirstIndex(s, sep);
      var rest := Split(s[i + 1..], sep);
      assert ([s[..i]] + rest)[1..] == rest;
      assert s == s[..i] + [sep] + s[i + 1..];
      [s[..i]] + rest
  }

  /** `s.split(sep)[-1]`: the text after the last separator. It holds no
      separator, it is a suffix of `s`, and it is either all of `s` or
      directly preceded by a separator. */
  function LastPiece(s: string, sep: char): (r: string)
    ensures sep !in r
    ensures |r| <= |s| && s[|s| - |r|..] == r
    ensures |r| < |s| ==> s[|s| - |r| - 1] == sep
  {
    var parts := Split(s, sep);
    JoinEndsWithLast(parts, [sep]);
    parts[|parts| - 1]
  }

  /** A joined sequence ends with its last part, preceded by the separator
      when there is more than one part. */
  lemma {:induction false} JoinEndsWithLast(parts: seq<string>, sep: string)
    requires |parts| >= 1
    ensures var j, l := Join(parts, sep), parts[|parts| - 1];
            |l| <= |j| && j[|j| - |l|..] == l
            && (|parts| > 1 ==> |l| + |sep| <= |j| && j[|j| - |l| - |sep|..|j| - |l|] == sep)
  {
    if |parts| > 1 {
      JoinEndsWithLast(parts[1..], sep);
      var rest := Join(parts[1..], sep);
      var j := Join(parts, sep);
      var l := parts[|parts| - 1];
      assert j == parts[0] + sep + rest;
      assert l == parts[1..][|parts[1..]| - 1];
      if |parts| > 2 {
        assert j[|j| - |l| - |sep|..|j| - |l|] == rest[|rest| - |l| - |sep|..|rest| - |l|];
      } else {
        assert rest == l;
      }
    }
  }

  /** `s.replace(from, to)` for one-character `from` and `to`. */
  function Replace(s: string, from: char, to: char): (r: string)
    ensures |r| == |s|
    ensures forall i :: 0 <= i < |s| ==> r[i] == (if s[i] == from then to else s[i])
  {
    seq(|s|, i requires 0 <= i < |s| => if s[i] == from then to else s[i])
  }

  /** Splitting on `from` and joining with `to` is the same as replacing
      every `from` by `to`: the two spellings the application uses agree. */
  lemma {:induction false} JoinSplitIsReplace(s: string, from: char, to: char)
    ensures Join(Split(s, from), [to]) == Replace(s, from, to)
    decreases |s|
  {
    if from in s {
      var i := FirstIndex(s, from);
      JoinSplitStep(s, from, to);
      JoinSplitIsReplace(s[i + 1..], from, to);
      assert s == s[..i] + [from] + s[i + 1..];
      ReplaceAround(s[..i], s[i + 1..], from, to);
    } else {
      ReplaceAbsent(s, from, to);
    }
  }

  /** Splitting and joining handles the text before the first separator,
      then the rest. */
  lemma JoinSplitStep(s: string, from: char, to: char)
    requires from in s
    ensures var i := FirstIndex(s, from);
            Join(Split(s, from), [to]) == s[..i] + [to] + Join(Split(s[i + 1..], from), [to])
  {
    var i := FirstIndex(s, from);
    var rest := Split(s[i + 1..], from);
    assert Split(s, from) == [s[..i]] + rest;
    assert ([s[..i]] + rest)[1..] == rest;
  }

  /** Replacing around a first `from`: the text before it is unchanged. */
  lemma ReplaceAround(head: string, tail: string, from: char, to: char)
    requires from !in head
    ensures Replace(head + [from] + tail, from, to) == head + [to] + Replace(tail, from, to)
  {
    ReplaceConcat(head + [from], tail, from, to);
    ReplaceConcat(head, [from], from, to);
    ReplaceAbsent(head, from, to);
  }

  /** Replacing distributes over concatenation. */
  lemma ReplaceConcat(a: string, b: string, from: char, to: char)
    ensures Replace(a + b, from, to) == Replace(a, from, to) + Replace(b, from, to)
  {
  }

  /** Text without `from` is unchanged by the replacement. */
  lemma ReplaceAbsent(s: string, from: char, to: char)
    requires from !in s
    ensures Replace(s, from, to) == s
  {
  }

  /** Leading whitespace removed. */
  function DropSpaces(s: string): (r: string)
    ensures |r| <= |s| && r == s[|s| - |r|..]
    ensures AllSpace(s[..|s| - |r|])
    ensures r == [] || !IsSpace(r[0])
  {
    if s == [] || !IsSpace(s[0]) then s else DropSpaces(s[1..])
  }

  /** The longest prefix of `s` that holds no whitespace. */
  function TakeWord(s: string): (w: string)
    ensures |w| <= |s| && w == s[..|w|]
    ensures NoSpace(w)
    ensures |w| < |s| ==> IsSpace(s[|w|])
  {
    if s == [] || IsSpace(s[0]) then [] else [s[0]] + TakeWord(s[1..])
  }

  /** A word list as `str.split()` produces it: no empty word and no
      whitespace inside a word. */
  predicate Words(ws: seq<string>) {
    forall i :: 0 <= i < |ws| ==> |ws[i]| > 0 && NoSpace(ws[i])
  }

  /** `s.split()`: the maximal runs of non-whitespace, in order. There are
      none exactly when `s` is empty or all whitespace. */
  function SplitWhitespace(s: string): (words: seq<string>)
    ensures Words(words)
    ensures |words| == 0 <==> AllSpace(s)
    decreases |s|
  {
    var t := DropSpaces(s);
    if t == [] then
      assert s == s[..|s| - |t|];
      []
    else
      var w := TakeWord(t);
      var rest := SplitWhitespace(t[|w|..]);
      assert |w| > 0 && NoSpace(w);
      assert !IsSpace(s[|s| - |t|]);
      WordsCons(w, rest);
      [w] + rest
  }

  /** A word in front of a word list makes a word list. */
  lemma WordsCons(w: string, ws: seq<string>)
    requires |w| > 0 && NoSpace(w) && Words(ws)
    ensures Words([w] + ws)
  {
    forall i | 0 < i < |ws| + 1
      ensures |([w] + ws)[i]| > 0 && NoSpace(([w] + ws)[i])
    {
      assert ([w] + ws)[i] == ws[i - 1];
    }
  }

  /** Whitespace in front does not change `split()`. */
  lemma SplitLeadingSpace(c: char, s: string)
    requires IsSpace(c)
    ensures SplitWhitespace([c] + s) == SplitWhitespace(s)
  {
    assert ([c] + s)[1..] == s;
  }

  /** A word is read up to the first whitespace that follows it. */
  lemma {:induction false} TakeWordOfWord(w: string, rest: string)
    requires NoSpace(w)
    requires rest == [] || IsSpace(rest[0])
    ensures TakeWord(w + rest) == w
  {
    if w != [] {
      assert (w + rest)[1..] == w[1..] + rest;
      TakeWordOfWord(w[1..], rest);
    }
  }

  /** The first characters of a join are those of its first part. */
  lemma JoinStartsWithFirst(parts: seq<string>, sep: string)
    requires |parts| >= 1
    ensures |parts[0]| <= |Join(parts, sep)|
    ensures Join(parts, sep)[..|parts[0]|] == parts[0]
  {
  }

  /** A leading word followed by whitespace (or nothing) is the first word
      `split()` yields. */
  lemma SplitAfterWord(w: string, rest: string)
    requires |w| > 0 && NoSpace(w)
    requires rest == [] || IsSpace(rest[0])
    ensures SplitWhitespace(w + rest) == [w] + SplitWhitespace(rest)
  {
    var j := w + rest;
    assert DropSpaces(j) == j;
    TakeWordOfWord(w, rest);
    assert j[|w|..] == rest;
  }

  /** Dropping the first word keeps a word list a word list. */
  lemma WordsTail(ws: seq<string>)
    requires Words(ws) && |ws| > 0
    ensures Words(ws[1..])
  {
    forall i | 0 <= i < |ws| - 1
      ensures |ws[1..][i]| > 0 && NoSpace(ws[1..][i])
    {
      assert ws[1..][i] == ws[i + 1];
    }
  }

  /** `split()` of a space-joined word list yields its first word, then
      the words of the rest. */
  lemma SplitJoinStep(ws: seq<string>)
    requires Words(ws) && |ws| > 1
    ensures SplitWhitespace(Join(ws, " ")) == [ws[0]] + SplitWhitespace(Join(ws[1..], " "))
  {
    var rest := Join(ws[1..], " ");
    var spaced: string := [' '] + rest;
    assert Join(ws, " ") == ws[0] + spaced;
    SplitAfterWord(ws[0], spaced);
    SplitLeadingSpace(' ', rest);
  }

  /** Joining `str.split()` words with single spaces and splitting again
      gives back the same words. */
  lemma {:induction false} SplitJoinWords(ws: seq<string>)
    requires Words(ws)
    ensures SplitWhitespace(Join(ws, " ")) == ws
  {
    if |ws| == 1 {
      SplitAfterWord(ws[0], []);
      assert ws[0] + [] == ws[0];
    } else if |ws| > 1 {
      WordsTail(ws);
      SplitJoinStep(ws);
      SplitJoinWords(ws[1..]);
      HeadTail(ws);
    }
  }

  /** A single word splits to itself. */
  lemma SplitWord(w: string)
    requires |w| > 0 && NoSpace(w)
    ensures SplitWhitespace(w) == [w]
  {
    var e: string := [];
    assert w + e == w;
    SplitAfterWord(w, e);
  }

  /** Any whitespace character separates: `split()` of the text on either
      side of it, concatenated. With `SplitWord` and the all-whitespace case
      this fixes `split()` on every string. */
  lemma {:induction false} SplitAtSpace(a: string, c: char, b: string)
    requires IsSpace(c)
    ensures SplitWhitespace(a + [c] + b) == SplitWhitespace(a) + SplitWhitespace(b)
    decreases |a|
  {
    if a == [] {
      SplitAtSpaceEmpty(c, b);
    } else if IsSpace(a[0]) {
      SplitAtSpace(a[1..], c, b);
      SplitAtSpaceAfterSpace(a, c, b);
    } else {
      var w := TakeWord(a);
      SplitAtSpace(a[|w|..], c, b);
      SplitAtSpaceAfterWord(a, c, b);
    }
  }

  /** `SplitAtSpace` with nothing before the whitespace. */
  lemma SplitAtSpaceEmpty(c: char, b: string)
    requires IsSpace(c)
    ensures SplitWhitespace([] + [c] + b) == SplitWhitespace([]) + SplitWhitespace(b)
  {
    assert [] + [c] + b == [c] + b;
    SplitLeadingSpace(c, b);
  }

  /** The step of `SplitAtSpace` past a leading whitespace character. */
  lemma SplitAtSpaceAfterSpace(a: string, c: char, b: string)
    requires |a| > 0 && IsSpace(a[0])
    requires SplitWhitespace(a[1..] + [c] + b) == SplitWhitespace(a[1..]) + SplitWhitespace(b)
    ensures SplitWhitespace(a + [c] + b) == SplitWhitespace(a) + SplitWhitespace(b)
  {
    HeadTail(a);
    Assoc4([a[0]], a[1..], [c], b);
    SplitLeadingSpace(a[0], a[1..] + [c] + b);
    SplitLeadingSpace(a[0], a[1..]);
  }

  /** The step of `SplitAtSpace` past a leading word. */
  lemma SplitAtSpaceAfterWord(a: string, c: char, b: string)
    requires |a| > 0 && !IsSpace(a[0]) && IsSpace(c)
    requires var rest := a[|TakeWord(a)|..];
             SplitWhitespace(rest + [c] + b) == SplitWhitespace(rest) + SplitWhitespace(b)
    ensures SplitWhitespace(a + [c] + b) == SplitWhitespace(a) + SplitWhitespace(b)
  {
    var w := TakeWord(a);
    var rest := a[|w|..];
    PrefixSuffix(a, |w|);
    Assoc4(w, rest, [c], b);
    SplitAfterWord(w, rest + [c] + b);
    SplitAfterWord(w, rest);
    Assoc([w], SplitWhitespace(rest), SplitWhitespace(b));
  }

  /** Canonically spaced text: no whitespace at either end, and every
      whitespace character is a single space followed by a non-space. */
  predicate WellSpaced(s: string) {
    && (|s| > 0 ==> !IsSpace(s[0]) && !IsSpace(s[|s| - 1]))
    && forall i :: 0 <= i < |s| && IsSpace(s[i]) ==> s[i] == ' ' && i + 1 < |s| && !IsSpace(s[i + 1])
  }

  /** Words joined with single spaces are well spaced. */
  lemma {:induction false} JoinWordsWellSpaced(ws: seq<string>)
    requires Words(ws)
    ensures WellSpaced(Join(ws, " "))
  {
    if |ws| > 1 {
      var w := ws[0];
      var rest := Join(ws[1..], " ");
      var j := Join(ws, " ");
      JoinWordsWellSpaced(ws[1..]);
      JoinStartsWithFirst(ws[1..], " ");
      assert j == w + " " + rest;
      assert rest[0] == ws[1][0];
      forall i | 0 <= i < |j| && IsSpace(j[i])
        ensures j[i] == ' ' && i + 1 < |j| && !IsSpace(j[i + 1])
      {
        if i > |w| {
          assert j[i] == rest[i - |w| - 1];
          assert i + 1 < |j| ==> j[i + 1] == rest[i - |w|];
        }
      }
    }
  }

  /** ASCII upper-casing of one character; everything else is unchanged. */
  function Upper(c: char): char {
    if 'a' <= c <= 'z' then (c as int - 32) as char else c
  }

  /** ASCII lower-casing of one character; everything else is unchanged. */
  function Lower(c: char): char {
    if 'A' <= c <= 'Z' then (c as int + 32) as char else c
  }

  /** `w.capitalize()` on ASCII letters: the first character upper-cased,
      the rest lower-cased, the length kept and whitespace left where it was. */
  function Capitalize(w: string): (r: string)
    ensures |r| == |w|
    ensures |w| > 0 ==> r[0] == Upper(w[0])
    ensures forall i :: 0 < i < |w| ==> r[i] == Lower(w[i])
    ensures forall i :: 0 <= i < |w| ==> (IsSpace(r[i]) <==> IsSpace(w[i]))
  {
    if w == [] then []
    else [Upper(w[0])] + seq(|w| - 1, i requires 0 <= i < |w| - 1 => Lower(w[i + 1]))
  }

  /** Capitalizing twice is capitalizing once. */
  lemma CapitalizeIdempotent(w: string)
    ensures Capitalize(Capitalize(w)) == Capitalize(w)
  {
  }
}
