/** String helpers standing for the JavaScript string operations the source uses:
    `trim()`, `toLowerCase()`, `split(/\s+/)` and `join(sep)`. Strings are sequences of
    Unicode scalar values. */
module Text {
  import opened Seqs

  /** The characters ECMAScript treats as white space or line terminators: the set that
      `trim()` strips and that the regular-expression class `\s` matches. These are tab, line
      feed, vertical tab, form feed and carriage return (U+0009 to U+000D), space, no-break
      space, the Ogham space mark, the spaces U+2000 to U+200A, the line and paragraph
      separators, the narrow no-break space, the medium mathematical space, the ideographic
      space and the byte order mark. */
  predicate IsWhitespace(c: char)
  {
    || '\t' <= c <= '\r'
    || c == ' '
    || c == '\U{00A0}'
    || c == '\U{1680}'
    || '\U{2000}' <= c <= '\U{200A}'
    || c == '\U{2028}' || c == '\U{2029}'
    || c == '\U{202F}'
    || c == '\U{205F}'
    || c == '\U{3000}'
    || c == '\U{FEFF}'
  }

  /** `s.trim() === ''`: `s` consists of white space only (the empty string included). */
  predicate IsBlank(s: string)
  {
    forall i :: 0 <= i < |s| ==> IsWhitespace(s[i])
  }

  /** `s` contains no white space at all. */
  predicate NoWhitespace(s: string)
  {
    forall i :: 0 <= i < |s| ==> !IsWhitespace(s[i])
  }

  /** The first position at or after `i` that does not hold white space, or `|s|`. */
  function SkipBlanks(s: string, i: nat): (j: nat)
    requires i <= |s|
    ensures i <= j <= |s|
    ensures forall k :: i <= k < j ==> IsWhitespace(s[k])
    ensures j < |s| ==> !IsWhitespace(s[j])
    decreases |s| - i
  {
    if i < |s| && IsWhitespace(s[i]) then SkipBlanks(s, i + 1) else i
  }

  /** The position after the last character before `j` that is not white space, but not
      before `lo`. */
  function SkipBlanksBack(s: string, lo: nat, j: nat): (k: nat)
    requires lo <= j <= |s|
    ensures lo <= k <= j
    ensures forall m :: k <= m < j ==> IsWhitespace(s[m])
    ensures k > lo ==> !IsWhitespace(s[k - 1])
    decreases j
  {
    if j > lo && IsWhitespace(s[j - 1]) then SkipBlanksBack(s, lo, j - 1) else j
  }

  /** `s.trimStart()`: `s` without its leading white space. */
  function TrimStart(s: string): (r: string)
    ensures |r| <= |s| && r == s[|s| - |r|..]
    ensures forall i :: 0 <= i < |s| - |r| ==> IsWhitespace(s[i])
    ensures r != [] ==> !IsWhitespace(r[0])
    ensures |s| > 0 && IsWhitespace(s[0]) ==> |r| < |s|
  {
    s[SkipBlanks(s, 0)..]
  }

  /** `s.trim()`: the infix of `s` left once the white space at both ends is cut off; it
      neither starts nor ends with white space (`TrimSpec` shows it is empty exactly when `s`
      is blank). */
  function Trim(s: string): (r: string)
    ensures r != "" ==> !IsWhitespace(r[0]) && !IsWhitespace(r[|r| - 1])
    ensures |r| <= |s|
    ensures exists k :: 0 <= k <= |s| - |r| && r == s[k..k + |r|] && IsBlank(s[..k]) && IsBlank(s[k + |r|..])
  {
    var start := SkipBlanks(s, 0);
    var end := SkipBlanksBack(s, start, |s|);
    BlankOutside(s, start, end);
    s[start..end]
  }

  /** Cutting off a blank prefix and a blank suffix leaves the infix between them. */
  lemma BlankOutside(s: string, start: nat, end: nat)
    requires start <= end <= |s|
    requires forall k :: 0 <= k < start ==> IsWhitespace(s[k])
    requires forall m :: end <= m < |s| ==> IsWhitespace(s[m])
    ensures IsBlank(s[..start]) && IsBlank(s[end..])
  {
    var head := s[..start];
    var tail := s[end..];
    forall i | 0 <= i < |head| ensures IsWhitespace(head[i]) {
      assert head[i] == s[i];
    }
    forall i | 0 <= i < |tail| ensures IsWhitespace(tail[i]) {
      assert tail[i] == s[end + i];
    }
  }

  /** Trimming leaves nothing exactly when there was nothing but white space. */
  lemma TrimSpec(s: string)
    ensures Trim(s) == "" <==> IsBlank(s)
  {
    var r := Trim(s);
    var k :| 0 <= k <= |s| - |r| && r == s[k..k + |r|] && IsBlank(s[..k]) && IsBlank(s[k + |r|..]);
    BlankAroundInfix(s, k, r);
  }

  /** An infix between a blank prefix and a blank suffix, not starting with white space, is
      empty exactly when the whole string is blank. */
  lemma BlankAroundInfix(s: string, k: nat, r: string)
    requires k + |r| <= |s| && r == s[k..k + |r|]
    requires IsBlank(s[..k]) && IsBlank(s[k + |r|..])
    requires r != "" ==> !IsWhitespace(r[0])
    ensures r == "" <==> IsBlank(s)
  {
    if r == "" {
      forall i | 0 <= i < |s| ensures IsWhitespace(s[i]) {
        if i < k {
          assert s[..k][i] == s[i];
        } else {
          assert s[k..][i - k] == s[i];
        }
      }
    } else {
      assert r[0] == s[k];
    }
  }

  /** The lower-case form of a character; letters outside A-Z are left as they are. */
  function LowerChar(c: char): char
  {
    if 'A' <= c <= 'Z' then (c as int - 'A' as int + 'a' as int) as char else c
  }

  /** `s.toLowerCase()`, on the ASCII letters. */
  function Lower(s: string): (r: string)
    ensures |r| == |s|
    ensures forall i :: 0 <= i < |s| ==> r[i] == LowerChar(s[i])
  {
    seq(|s|, i requires 0 <= i < |s| => LowerChar(s[i]))
  }

  /** `s.split(/\s+/)`: the pieces of `s` between maximal runs of white space. Leading or
      trailing white space yields an empty first or last piece, as in JavaScript. */
  function SplitWhitespace(s: string): (r: seq<string>)
  {
    SplitFrom(s, "")
  }

  /** Splits `s` on runs of white space, `word` being the part of the current piece read so far. */
  function SplitFrom(s: string, word: string): (r: seq<string>)
    ensures |r| > 0
    decreases |s|
  {
    if s == [] then [word]
    else if IsWhitespace(s[0]) then
      var rest := TrimStart(s);
      [word] + SplitFrom(rest, "")
    else SplitFrom(s[1..], word + [s[0]])
  }

  /** `s` with every white-space character deleted. */
  function StripWhitespace(s: string): (r: string)
  {
    if s == [] then []
    else if IsWhitespace(s[0]) then StripWhitespace(s[1..])
    else [s[0]] + StripWhitespace(s[1..])
  }

  /** The concatenation of all the strings of `xs`. */
  function Concat(xs: seq<string>): string
  {
    if xs == [] then "" else xs[0] + Concat(xs[1..])
  }

  /** Splitting on white space loses nothing but the white space: no piece contains any, and
      the pieces put together are `s` with its white space deleted. */
  lemma {:induction false} SplitWhitespaceSound(s: string)
    ensures forall w <- SplitWhitespace(s) :: NoWhitespace(w)
    ensures Concat(SplitWhitespace(s)) == StripWhitespace(s)
  {
    SplitFromSound(s, "");
  }

  lemma SplitFromSound(s: string, word: string)
    requires NoWhitespace(word)
    ensures forall w <- SplitFrom(s, word) :: NoWhitespace(w)
    ensures Concat(SplitFrom(s, word)) == word + StripWhitespace(s)
  {
    SplitFromClean(s, word);
    SplitFromConcat(s, word);
  }

  /** Every piece is free of white space. */
  lemma {:induction false} SplitFromClean(s: string, word: string)
    requires NoWhitespace(word)
    ensures forall w <- SplitFrom(s, word) :: NoWhitespace(w)
    decreases |s|
  {
    if s == [] {
    } else if IsWhitespace(s[0]) {
      SplitFromClean(TrimStart(s), "");
    } else {
      NoWhitespaceSnoc(word, s[0]);
      SplitFromClean(s[1..], word + [s[0]]);
    }
  }

  /** The pieces, put back together, are the input without its white space. */
  lemma {:induction false} SplitFromConcat(s: string, word: string)
    ensures Concat(SplitFrom(s, word)) == word + StripWhitespace(s)
    decreases |s|
  {
    if s == [] {
      ConcatCons(word, []);
    } else if IsWhitespace(s[0]) {
      var rest := TrimStart(s);
      SplitFromConcat(rest, "");
      StripBlankPrefix(s, |s| - |rest|);
      ConcatCons(word, SplitFrom(rest, ""));
    } else {
      SplitFromConcat(s[1..], word + [s[0]]);
      assert (word + [s[0]]) + StripWhitespace(s[1..]) == word + ([s[0]] + StripWhitespace(s[1..]));
    }
  }

  /** Adding a character other than white space keeps a string free of white space. */
  lemma NoWhitespaceSnoc(word: string, c: char)
    requires NoWhitespace(word) && !IsWhitespace(c)
    ensures NoWhitespace(word + [c])
  {
    var longer := word + [c];
    forall i | 0 <= i < |longer| ensures !IsWhitespace(longer[i]) {
      if i < |word| { assert longer[i] == word[i]; }
    }
  }

  /** `w` occurs in `s` at position `i` as a whole word: preceded by white space or the start
      of `s`, and followed by white space or the end of `s`. */
  predicate WordAt(s: string, w: string, i: int)
  {
    && 0 <= i && i + |w| <= |s| && s[i..i + |w|] == w
    && (i == 0 || IsWhitespace(s[i - 1]))
    && (i + |w| == |s| || IsWhitespace(s[i + |w|]))
  }

  /** `w` occurs somewhere in `s` as a whole word. */
  predicate OccursAsWord(s: string, w: string)
  {
    exists i :: 0 <= i <= |s| && WordAt(s, w, i)
  }

  /** Splitting on white space yields the words of `s`: a non-empty string without white
      space is one of the pieces exactly when it occurs in `s` as a whole word. */
  lemma {:induction false} SplitWhitespaceWords(s: string, w: string)
    requires w != "" && NoWhitespace(w)
    ensures w in SplitWhitespace(s) <==> OccursAsWord(s, w)
  {
    SplitFromWords(s, "", w);
    assert "" + s == s;
  }

  lemma {:induction false} SplitFromWords(s: string, word: string, w: string)
    requires NoWhitespace(word)
    requires w != "" && NoWhitespace(w)
    ensures w in SplitFrom(s, word) <==> OccursAsWord(word + s, w)
    decreases |s|
  {
    if s == [] {
      assert word + s == word;
      OnlyWord(word, w);
    } else if IsWhitespace(s[0]) {
      var rest := TrimStart(s);
      SplitFromWords(rest, "", w);
      assert "" + rest == rest;
      var pieces := SplitFrom(rest, "");
      assert SplitFrom(s, word) == [word] + pieces;
      assert w in [word] + pieces <==> w == word || w in pieces;
      WordsAcrossBlank(word, s, |s| - |rest|, w);
    } else {
      var longer := word + [s[0]];
      NoWhitespaceSnoc(word, s[0]);
      SplitFromWords(s[1..], longer, w);
      assert longer + s[1..] == word + s;
    }
  }

  /** A string without white space has itself as its only word. */
  lemma OnlyWord(word: string, w: string)
    requires NoWhitespace(word)
    requires w != ""
    ensures OccursAsWord(word, w) <==> w == word
  {
    if w == word {
      assert WordAt(word, w, 0);
    }
    if OccursAsWord(word, w) {
      var i :| 0 <= i <= |word| && WordAt(word, w, i);
      assert i == 0 && i + |w| == |word|;
      assert word[0..|word|] == word;
    }
  }

  /** The words of `word + s`, where `s` starts with `k` white-space characters, are `word`
      itself (when it is not empty) and the words of what follows the white space. */
  lemma WordsAcrossBlank(word: string, s: string, k: nat, w: string)
    requires NoWhitespace(word)
    requires w != "" && NoWhitespace(w)
    requires 0 < k <= |s|
    requires forall i :: 0 <= i < k ==> IsWhitespace(s[i])
    ensures OccursAsWord(word + s, w) <==> w == word || OccursAsWord(s[k..], w)
  {
    if w == word {
      assert (word + s)[0..|word|] == word;
      assert (word + s)[|word|] == s[0];
      assert WordAt(word + s, w, 0);
    }
    if OccursAsWord(s[k..], w) {
      var j :| 0 <= j <= |s[k..]| && WordAt(s[k..], w, j);
      WordAfterBlank(word, s, k, w, j);
    }
    if OccursAsWord(word + s, w) {
      var i :| 0 <= i <= |word + s| && WordAt(word + s, w, i);
      WordFromBlankJoin(word, s, k, w, i);
    }
  }

  /** A word after the white space is a word of the whole string, `|word| + k` further on. */
  lemma WordAfterBlank(word: string, s: string, k: nat, w: string, j: int)
    requires 0 < k <= |s|
    requires IsWhitespace(s[k - 1])
    requires WordAt(s[k..], w, j)
    ensures WordAt(word + s, w, |word| + k + j)
  {
    var t := word + s;
    var rest := s[k..];
    var i := |word| + k + j;
    assert t[|word| + k..] == rest;
    assert t[i..i + |w|] == t[|word| + k..][j..j + |w|];
    assert j == 0 ==> t[i - 1] == s[k - 1];
    assert j > 0 ==> t[i - 1] == rest[j - 1];
    assert i + |w| < |t| ==> t[i + |w|] == rest[j + |w|];
  }

  /** A word of `word + s` is either `word` or a word of what follows the white space. */
  lemma WordFromBlankJoin(word: string, s: string, k: nat, w: string, i: int)
    requires NoWhitespace(word)
    requires w != "" && NoWhitespace(w)
    requires 0 < k <= |s|
    requires forall i :: 0 <= i < k ==> IsWhitespace(s[i])
    requires WordAt(word + s, w, i)
    ensures w == word || WordAt(s[k..], w, i - |word| - k)
  {
    var t := word + s;
    var n := |word|;
    var rest := s[k..];
    assert w[0] == t[i];
    assert forall x :: 0 <= x < n ==> !IsWhitespace(t[x]) by {
      forall x | 0 <= x < n ensures !IsWhitespace(t[x]) { assert t[x] == word[x]; }
    }
    assert forall x :: n <= x < n + k ==> IsWhitespace(t[x]) by {
      forall x | n <= x < n + k ensures IsWhitespace(t[x]) { assert t[x] == s[x - n]; }
    }
    assert forall x :: 0 <= x < |w| ==> w[x] == t[i + x];
    if i < n + k {
      assert i == 0;
      assert forall x :: 0 <= x < |w| ==> !IsWhitespace(t[x]);
      assert IsWhitespace(t[n]);
      assert |w| == n;
      assert w == t[0..n] == word;
    } else {
      var j := i - n - k;
      assert t[n + k..] == rest;
      assert rest[j..j + |w|] == t[n + k..][j..j + |w|];
      assert j > 0 ==> rest[j - 1] == t[i - 1];
      assert j + |w| < |rest| ==> rest[j + |w|] == t[i + |w|];
    }
  }

  lemma ConcatCons(w: string, xs: seq<string>)
    ensures Concat([w] + xs) == w + Concat(xs)
  {
    assert ([w] + xs)[1..] == xs;
  }

  /** Deleting white space ignores a blank prefix. */
  lemma {:induction false} StripBlankPrefix(s: string, k: nat)
    requires k <= |s|
    requires forall i :: 0 <= i < k ==> IsWhitespace(s[i])
    ensures StripWhitespace(s) == StripWhitespace(s[k..])
    decreases k
  {
    if k > 0 {
      StripBlankPrefix(s[1..], k - 1);
      assert s[1..][k - 1..] == s[k..];
    }
  }

  /** `xs.join(sep)`: the strings of `xs` with `sep` between neighbours; `[].join(sep)` is `""`. */
  function Join(xs: seq<string>, sep: string): (r: string)
  {
    if |xs| == 0 then ""
    else if |xs| == 1 then xs[0]
    else xs[0] + sep + Join(xs[1..], sep)
  }

  /** Joining one more string adds the separator and that string at the end. */
  lemma {:induction false} JoinSnoc(xs: seq<string>, y: string, sep: string)
    requires xs != []
    ensures Join(xs + [y], sep) == Join(xs, sep) + sep + y
  {
    if |xs| == 1 {
      assert xs + [y] == [xs[0], y];
      assert [xs[0], y][1..] == [y];
    } else {
      JoinSnoc(xs[1..], y, sep);
      assert (xs + [y])[1..] == xs[1..] + [y];
    }
  }

  /** A join of non-empty strings is non-empty. */
  lemma {:induction false} JoinNonEmpty(xs: seq<string>, sep: string)
    requires xs != [] && xs[0] != ""
    ensures Join(xs, sep) != ""
  {
    if |xs| > 1 {
      assert Join(xs, sep) == xs[0] + (sep + Join(xs[1..], sep));
    }
  }

  /** The position of the first `c` in `s`, if any. */
  function IndexOf(s: string, c: char): (r: Option<nat>)
    ensures r.None? ==> c !in s
    ensures r.Some? ==> r.value < |s| && s[r.value] == c && c !in s[..r.value]
  {
    if s == [] then None
    else if s[0] == c then Some(0)
    else match IndexOf(s[1..], c)
      case None => None
      case Some(i) =>
        assert s[..i + 1] == [s[0]] + s[1..][..i];
        Some(i + 1)
  }

  /** The position of the last `c` in `s`, if any. */
  function LastIndexOf(s: string, c: char): (r: Option<nat>)
    ensures r.None? ==> c !in s
    ensures r.Some? ==> r.value < |s| && s[r.value] == c && c !in s[r.value + 1..]
  {
    if s == [] then None
    else if s[|s| - 1] == c then Some(|s| - 1)
    else
      var r := LastIndexOf(s[..|s| - 1], c);
      assert s == s[..|s| - 1] + [s[|s| - 1]];
      r
  }

  /** `s.split(c)` for a one-character separator: the pieces of `s` between occurrences of `c`. */
  function SplitOn(s: string, c: char): (r: seq<string>)
    decreases |s|
  {
    match IndexOf(s, c)
    case None => [s]
    case Some(i) => [s[..i]] + SplitOn(s[i + 1..], c)
  }

  /** Splitting undoes joining with a one-character separator that no joined string contains. */
  lemma {:induction false} SplitOnJoin(xs: seq<string>, c: char)
    requires xs != []
    requires forall i :: 0 <= i < |xs| ==> c !in xs[i]
    ensures SplitOn(Join(xs, [c]), c) == xs
  {
    if |xs| == 1 {
      assert Join(xs, [c]) == xs[0];
      assert c !in xs[0];
    } else {
      var rest := Join(xs[1..], [c]);
      assert Join(xs, [c]) == xs[0] + [c] + rest;
      SplitOnJoin(xs[1..], c);
      SplitOnStep(xs[0], c, rest);
      assert xs == [xs[0]] + xs[1..];
    }
  }

  /** Splitting at the first separator splits off the part before it. */
  lemma {:induction false} SplitOnStep(a: string, c: char, b: string)
    requires c !in a
    ensures SplitOn(a + [c] + b, c) == [a] + SplitOn(b, c)
  {
    var s := a + [c] + b;
    FirstIndexAfter(a, c, b);
    assert s[..|a|] == a;
    assert s[|a| + 1..] == b;
  }

  /** The first `c` in `a + [c] + b` is the one after `a` when `a` has none. */
  lemma {:induction false} FirstIndexAfter(a: string, c: char, b: string)
    requires c !in a
    ensures IndexOf(a + [c] + b, c) == Some(|a|)
  {
    var s := a + [c] + b;
    assert s[|a|] == c;
    assert forall k :: 0 <= k < |a| ==> s[k] == a[k];
  }
}
