/** The Python string operations the cleaning pipeline relies on, over
    `string` = `seq<char>`: substring search, literal deletion (what `re.sub`
    does with a pattern that has no special characters), whitespace trimming,
    `str.split()` followed by `'_'.join(...)`, and `str.split(' ', 2)`. */
module Text {
  import opened Seqs

  /** Python's `str.isspace()` for one character; a `\s` in a `re` pattern over
      `str` matches exactly these characters too. */
  predicate IsWhitespace(c: char) {
    || c == ' '
    || ('\U{0009}' <= c <= '\U{000D}')
    || ('\U{001C}' <= c <= '\U{001F}')
    || c == '\U{0085}' || c == '\U{00A0}' || c == '\U{1680}'
    || ('\U{2000}' <= c <= '\U{200A}')
    || c == '\U{2028}' || c == '\U{2029}' || c == '\U{202F}' || c == '\U{205F}'
    || c == '\U{3000}'
  }

  predicate NoWhitespace(s: string) {
    forall i :: 0 <= i < |s| ==> !IsWhitespace(s[i])
  }

  /** Neither the first nor the last character is whitespace. */
  predicate TrimmedEnds(s: string) {
    |s| == 0 || (!IsWhitespace(s[0]) && !IsWhitespace(s[|s| - 1]))
  }

  /** Number of occurrences of `c` in `s` (Python's `s.count(c)`). */
  function Count(s: string, c: char): nat
    decreases |s|
  {
    if |s| == 0 then 0 else (if s[0] == c then 1 else 0) + Count(s[1..], c)
  }

  lemma {:induction false} CountAppend(a: string, b: string, c: char)
    ensures Count(a + b, c) == Count(a, c) + Count(b, c)
    decreases |a|
  {
    if |a| == 0 {
      assert a + b == b;
    } else {
      assert (a + b)[1..] == a[1..] + b;
      CountAppend(a[1..], b, c);
    }
  }

  lemma {:induction false} CountZero(s: string, c: char)
    ensures Count(s, c) == 0 <==> c !in s
    decreases |s|
  {
    if |s| > 0 {
      CountZero(s[1..], c);
      assert s == [s[0]] + s[1..];
    }
  }

  predicate StartsWith(s: string, p: string) {
    |p| <= |s| && s[..|p|] == p
  }

  predicate EndsWith(s: string, p: string) {
    |p| <= |s| && s[|s| - |p|..] == p
  }

  /** Python's `p in s`. */
  predicate Contains(s: string, p: string)
    decreases |s|
  {
    StartsWith(s, p) || (|s| > 0 && Contains(s[1..], p))
  }

  /** A one-character string is contained exactly when the character occurs. */
  lemma {:induction false} ContainsChar(s: string, c: char)
    ensures Contains(s, [c]) <==> c in s
    decreases |s|
  {
    if |s| > 0 {
      ContainsChar(s[1..], c);
      assert s == [s[0]] + s[1..];
    }
  }

  /** A string containing `p` contains its first character. */
  lemma {:induction false} ContainsFirst(s: string, p: string)
    requires |p| > 0 && Contains(s, p)
    ensures p[0] in s
    decreases |s|
  {
    if !StartsWith(s, p) {
      ContainsFirst(s[1..], p);
    }
  }

  /** `re.sub(p, '', s)` for a pattern `p` without special characters: scanning
      from the left, every non-overlapping occurrence of `p` is erased. */
  function DeleteAll(s: string, p: string): (r: string)
    requires |p| > 0
    ensures IsSubseq(r, s)
    ensures !Contains(s, p) ==> r == s
    ensures |p| == 1 ==> p[0] !in r
    decreases |s|
  {
    if |s| == 0 then s
    else if StartsWith(s, p) then
      var rest := DeleteAll(s[|p|..], p);
      SubseqOfSuffix(rest, s, |p|);
      rest
    else
      var rest := DeleteAll(s[1..], p);
      SubseqBothCons(s[0], rest, s[1..]);
      assert [s[0]] + s[1..] == s;
      [s[0]] + rest
  }

  /** Number of leading whitespace characters. */
  function LeadingWhitespace(s: string): (k: nat)
    ensures k <= |s|
    ensures forall j :: 0 <= j < k ==> IsWhitespace(s[j])
    ensures k < |s| ==> !IsWhitespace(s[k])
    decreases |s|
  {
    if |s| == 0 || !IsWhitespace(s[0]) then 0
    else
      var k := LeadingWhitespace(s[1..]);
      assert forall j :: 1 <= j < k + 1 ==> s[1..][j - 1] == s[j];
      k + 1
  }

  /** Number of trailing whitespace characters. */
  function TrailingWhitespace(s: string): (k: nat)
    ensures k <= |s|
    ensures forall j :: |s| - k <= j < |s| ==> IsWhitespace(s[j])
    ensures k < |s| ==> !IsWhitespace(s[|s| - k - 1])
    decreases |s|
  {
    if |s| == 0 || !IsWhitespace(s[|s| - 1]) then 0
    else
      var t := s[..|s| - 1];
      var k := TrailingWhitespace(t);
      assert forall j :: |t| - k <= j < |t| ==> t[j] == s[j];
      k + 1
  }

  /** `re.sub(r'^\s+|\s+$', '', s)`: the whitespace before the first and after
      the last non-whitespace character is erased. The result is the unique
      slice of `s` whose ends are not whitespace and outside which there is
      only whitespace. */
  function Trim(s: string): (r: string)
    ensures TrimmedEnds(r)
    ensures var i := LeadingWhitespace(s);
      && i + |r| <= |s| && r == s[i..i + |r|]
      && (forall j :: 0 <= j < i ==> IsWhitespace(s[j]))
      && (forall j :: i + |r| <= j < |s| ==> IsWhitespace(s[j]))
  {
    var i := LeadingWhitespace(s);
    var n := TrimmedLength(s, i);
    TrimmedLengthEnds(s, i);
    var r := s[i..i + n];
    assert n > 0 ==> r[0] == s[i] && r[n - 1] == s[i + n - 1];
    r
  }

  /** Length of what is left of `s[i..]` once its trailing whitespace is
      dropped. */
  function TrimmedLength(s: string, i: nat): (n: nat)
    requires i <= |s|
    ensures i + n <= |s|
  {
    |s| - i - TrailingWhitespace(s[i..])
  }

  /** Only whitespace follows the kept part, which does not end in
      whitespace. */
  lemma TrimmedLengthEnds(s: string, i: nat)
    requires i <= |s|
    ensures var n := TrimmedLength(s, i);
      && (forall j :: i + n <= j < |s| ==> IsWhitespace(s[j]))
      && (n > 0 ==> !IsWhitespace(s[i + n - 1]))
  {
    var t := s[i..];
    var n := TrimmedLength(s, i);
    forall j | i + n <= j < |s|
      ensures IsWhitespace(s[j])
    {
      assert t[j - i] == s[j];
    }
    if n > 0 {
      assert t[n - 1] == s[i + n - 1];
    }
  }

  /** Trimming only deletes. */
  lemma TrimSubseq(s: string)
    ensures IsSubseq(Trim(s), s)
  {
    var i := LeadingWhitespace(s);
    SubseqSlice(s, i, i + |Trim(s)|);
  }

  /** A string with non-whitespace ends is left as it is. */
  lemma TrimKeepsTrimmed(s: string)
    requires TrimmedEnds(s)
    ensures Trim(s) == s
  {
    if |s| > 0 {
      assert LeadingWhitespace(s) == 0;
      assert s[0..] == s;
      assert TrimmedLength(s, 0) == |s|;
    }
  }

  /** Trimming is idempotent. */
  lemma TrimIdempotent(s: string)
    ensures Trim(Trim(s)) == Trim(s)
  {
    TrimKeepsTrimmed(Trim(s));
  }

  /** Python's `s.split()`: the maximal runs of non-whitespace characters. */
  function Words(s: string): (ws: seq<string>)
    decreases |s|
  {
    if |s| == 0 then []
    else if IsWhitespace(s[0]) then Words(s[1..])
    else
      var k := LeadingNonWhitespace(s);
      [s[..k]] + Words(s[k..])
  }

  /** Length of the longest prefix without whitespace. */
  function LeadingNonWhitespace(s: string): (k: nat)
    ensures k <= |s|
    ensures NoWhitespace(s[..k])
    ensures k < |s| ==> IsWhitespace(s[k])
    decreases |s|
  {
    if |s| == 0 || IsWhitespace(s[0]) then 0
    else 1 + LeadingNonWhitespace(s[1..])
  }

  /** `s` with every whitespace character deleted. */
  function RemoveWhitespace(s: string): string
    decreases |s|
  {
    if |s| == 0 then ""
    else if IsWhitespace(s[0]) then RemoveWhitespace(s[1..])
    else [s[0]] + RemoveWhitespace(s[1..])
  }

  /** Concatenation of a list of strings. */
  function Concat(ws: seq<string>): string {
    if |ws| == 0 then "" else ws[0] + Concat(ws[1..])
  }

  /** Python's `sep.join(parts)` for a one-character separator. */
  function Join(parts: seq<string>, sep: char): string {
    if |parts| == 0 then ""
    else if |parts| == 1 then parts[0]
    else parts[0] + [sep] + Join(parts[1..], sep)
  }

  lemma {:induction false} RemoveWhitespaceAppend(a: string, b: string)
    ensures RemoveWhitespace(a + b) == RemoveWhitespace(a) + RemoveWhitespace(b)
    decreases |a|
  {
    if |a| == 0 {
      assert a + b == b;
    } else {
      RemoveWhitespaceAppend(a[1..], b);
      assert (a + b)[1..] == a[1..] + b;
    }
  }

  lemma {:induction false} RemoveWhitespaceNone(s: string)
    requires NoWhitespace(s)
    ensures RemoveWhitespace(s) == s
    decreases |s|
  {
    if |s| > 0 {
      RemoveWhitespaceNone(s[1..]);
    }
  }

  /** `str.split()` is a reference-free description of its words: each is
      non-empty and whitespace-free, and together they are exactly the
      non-whitespace characters of `s`, in order. */
  lemma {:induction false} WordsSpec(s: string)
    ensures forall i :: 0 <= i < |Words(s)| ==> |Words(s)[i]| > 0 && NoWhitespace(Words(s)[i])
    ensures Concat(Words(s)) == RemoveWhitespace(s)
    decreases |s|
  {
    if |s| == 0 {
    } else if IsWhitespace(s[0]) {
      WordsSpec(s[1..]);
    } else {
      var k := LeadingNonWhitespace(s);
      WordsSpec(s[k..]);
      assert s == s[..k] + s[k..];
      RemoveWhitespaceAppend(s[..k], s[k..]);
      RemoveWhitespaceNone(s[..k]);
      assert Words(s) == [s[..k]] + Words(s[k..]);
    }
  }

  /** A whitespace-free string splits into itself alone (or nothing when empty). */
  lemma WordsOfWord(s: string)
    requires NoWhitespace(s)
    ensures Words(s) == (if |s| == 0 then [] else [s])
  {
    if |s| > 0 {
      var k := LeadingNonWhitespace(s);
      assert k == |s|;
      assert s[..k] == s;
    }
  }

  /** Joining whitespace-free parts with a non-whitespace separator gives a
      whitespace-free string. */
  lemma {:induction false} JoinNoWhitespace(parts: seq<string>, sep: char)
    requires !IsWhitespace(sep)
    requires forall i :: 0 <= i < |parts| ==> NoWhitespace(parts[i])
    ensures NoWhitespace(Join(parts, sep))
    decreases |parts|
  {
    if |parts| > 1 {
      JoinNoWhitespace(parts[1..], sep);
    }
  }

  /** `'_'.join(s.split())`: whitespace runs become single underscores and the
      ends lose their whitespace. */
  function NormaliseWhitespace(s: string): (r: string)
    ensures NoWhitespace(r)
    ensures NoWhitespace(s) ==> r == s
  {
    WordsSpec(s);
    JoinNoWhitespace(Words(s), '_');
    if NoWhitespace(s) then WordsOfWord(s); Join(Words(s), '_')
    else Join(Words(s), '_')
  }

  /** Normalising is idempotent, and a string is left alone exactly when it
      has no whitespace. */
  lemma NormaliseWhitespaceIdempotent(s: string)
    ensures NormaliseWhitespace(NormaliseWhitespace(s)) == NormaliseWhitespace(s)
    ensures NormaliseWhitespace(s) == s <==> NoWhitespace(s)
  {
  }

  /** Position of the first `c` in `s`, or `|s|` when there is none
      (Python's `str.find`, with "absent" as the length). */
  function IndexOfChar(s: string, c: char): (k: nat)
    ensures k <= |s|
    ensures c !in s[..k]
    ensures k < |s| ==> s[k] == c
    decreases |s|
  {
    if |s| == 0 || s[0] == c then 0
    else 1 + IndexOfChar(s[1..], c)
  }

  /** A string is what comes before position `i`, the character there, and
      what follows. */
  lemma SplitAround(s: string, i: nat)
    requires i < |s|
    ensures s == s[..i] + [s[i]] + s[i + 1..]
  {
  }

  /** A character between two strings is counted once besides their own. */
  lemma CountAround(a: string, b: string, c: char)
    ensures Count(a + [c] + b, c) == Count(a, c) + 1 + Count(b, c)
  {
    CountAppend(a + [c], b, c);
    CountAppend(a, [c], c);
    assert Count([c], c) == 1 by {
      assert [c][1..] == [];
    }
  }

  /** Cutting `s` at its first space: what comes before has no space, and
      the space is counted once. */
  lemma CutAtFirstSpace(s: string)
    requires ' ' in s
    ensures var i := IndexOfChar(s, ' ');
      && i < |s| && ' ' !in s[..i]
      && s == s[..i] + " " + s[i + 1..]
      && Count(s, ' ') == Count(s[i + 1..], ' ') + 1
  {
    var i := IndexOfChar(s, ' ');
    var before := s[..i];
    var after := s[i + 1..];
    assert i < |s|;
    SplitAround(s, i);
    CountAround(before, after, ' ');
    assert Count(before, ' ') == 0 by {
      CountZero(before, ' ');
    }
  }

  lemma JoinAround(a: string, b: string, c: string)
    ensures a + " " + b + " " + c == a + " " + (b + " " + c)
  {
  }

  /** Python's `s.split(' ', 2)`: split on each single space, at most twice.
      With two or more spaces there are three parts, joined back by single
      spaces they give `s`, and only the last may hold further spaces; with
      one space there are two space-free parts; with none, `s` alone. */
  function SplitOnSpace(s: string): (p: seq<string>)
    ensures Count(s, ' ') >= 2 ==>
      |p| == 3 && p[0] + " " + p[1] + " " + p[2] == s && ' ' !in p[0] && ' ' !in p[1]
    ensures Count(s, ' ') == 1 ==>
      |p| == 2 && p[0] + " " + p[1] == s && ' ' !in p[0] && ' ' !in p[1]
    ensures Count(s, ' ') == 0 ==> p == [s]
  {
    if ' ' !in s then
      CountZero(s, ' ');
      [s]
    else
      CutAtFirstSpace(s);
      var i := IndexOfChar(s, ' ');
      var name := s[..i];
      var rest := s[i + 1..];
      if ' ' !in rest then
        CountZero(rest, ' ');
        [name, rest]
      else
        CutAtFirstSpace(rest);
        var j := IndexOfChar(rest, ' ');
        var hospital := rest[..j];
        var position := rest[j + 1..];
        CountZero(rest, ' ');
        JoinAround(name, hospital, position);
        [name, hospital, position]
  }
}
