/**
 The string handling of the test: JavaScript's `trim`, `split(' ')`, the
 last-token extraction of the space handler, and the whitespace-free
 character count.

 Whitespace is a fixed small set (ASCII space and controls, and the
 no-break space) rather than the full Unicode set JavaScript uses.
 */
module Text {

  /** The characters `trim` and the regular-expression class `\s` remove. */
  predicate IsWhitespace(ch: char) {
    || ch == ' ' || ch == '\t' || ch == '\n' || ch == '\r'
    || ch == '\U{000B}' || ch == '\U{000C}' || ch == '\U{00A0}'
  }

  predicate AllWhitespace(s: string) {
    forall i :: 0 <= i < |s| ==> IsWhitespace(s[i])
  }

  predicate NoWhitespace(s: string) {
    forall i :: 0 <= i < |s| ==> !IsWhitespace(s[i])
  }

  // ---------------------------------------------------------------------------
  // trim
  // ---------------------------------------------------------------------------

  /** The number of whitespace characters `s` starts with. */
  function LeadingSpace(s: string): (n: nat)
    ensures n <= |s|
    ensures forall i :: 0 <= i < n ==> IsWhitespace(s[i])
    ensures n < |s| ==> !IsWhitespace(s[n])
  {
    if |s| > 0 && IsWhitespace(s[0]) then
      var n := 1 + LeadingSpace(s[1..]);
      assert forall i :: 1 <= i < n ==> s[i] == s[1..][i - 1];
      n
    else 0
  }

  /** The number of whitespace characters `s` ends with. */
  function TrailingSpace(s: string): (n: nat)
    ensures n <= |s|
    ensures forall i :: |s| - n <= i < |s| ==> IsWhitespace(s[i])
    ensures n < |s| ==> !IsWhitespace(s[|s| - n - 1])
  {
    if |s| > 0 && IsWhitespace(s[|s| - 1]) then
      var n := 1 + TrailingSpace(s[..|s| - 1]);
      assert forall i :: |s| - n <= i < |s| - 1 ==> s[i] == s[..|s| - 1][i];
      n
    else 0
  }

  /** `String.prototype.trim`: `s` is some whitespace, then the result, then
      some whitespace, and the result neither starts nor ends with
      whitespace. */
  function Trim(s: string): (r: string)
    ensures var lead := LeadingSpace(s);
      && lead + |r| <= |s|
      && r == s[lead..lead + |r|]
      && (forall i :: lead + |r| <= i < |s| ==> IsWhitespace(s[i]))
    ensures |r| > 0 ==> !IsWhitespace(r[0]) && !IsWhitespace(r[|r| - 1])
  {
    var lead := LeadingSpace(s);
    if lead == |s| then ""
    else
      var trail := TrailingSpace(s);
      assert lead < |s| - trail;
      s[lead..|s| - trail]
  }

  /** A string without surrounding whitespace is its own trim. */
  lemma TrimUnchanged(s: string)
    requires |s| > 0 ==> !IsWhitespace(s[0]) && !IsWhitespace(s[|s| - 1])
    ensures Trim(s) == s
  {
  }

  /** Trimming twice is trimming once. */
  lemma TrimIdempotent(s: string)
    ensures Trim(Trim(s)) == Trim(s)
  {
  }

  // ---------------------------------------------------------------------------
  // split and join on a separator character
  // ---------------------------------------------------------------------------

  /** A piece of a split: text without the separator. */
  predicate NoSeparator(w: string, sep: char) {
    forall i :: 0 <= i < |w| ==> w[i] != sep
  }

  /** `s.split(sep)` for a one-character separator: the pieces between the
      occurrences of `sep`, empty pieces included. */
  function Split(s: string, sep: char): (parts: seq<string>)
    ensures |parts| >= 1
  {
    SplitPrefix(s, |s|, sep)
  }

  /** The split of the first `n` characters of `s`, built left to right: a
      separator opens a new empty piece, any other character extends the
      last piece. */
  function SplitPrefix(s: string, n: nat, sep: char): (parts: seq<string>)
    requires n <= |s|
    ensures |parts| >= 1
  {
    if n == 0 then [""]
    else
      var init := SplitPrefix(s, n - 1, sep);
      if s[n - 1] == sep then init + [""]
      else init[..|init| - 1] + [init[|init| - 1] + [s[n - 1]]]
  }

  /** The split of the first `n` characters depends on those characters
      only. */
  lemma {:induction false} SplitPrefixAgree(s: string, u: string, n: nat, sep: char)
    requires n <= |s| && n <= |u| && s[..n] == u[..n]
    ensures SplitPrefix(s, n, sep) == SplitPrefix(u, n, sep)
  {
    if n > 0 {
      assert s[..n - 1] == s[..n][..n - 1];
      assert u[..n - 1] == u[..n][..n - 1];
      SplitPrefixAgree(s, u, n - 1, sep);
      assert s[n - 1] == s[..n][n - 1] == u[n - 1];
    }
  }

  /** One more character: a separator opens an empty piece, anything else
      extends the last piece. */
  lemma SplitSnoc(s: string, ch: char, sep: char)
    ensures var a := Split(s, sep);
      Split(s + [ch], sep)
      == if ch == sep then a + [""] else a[..|a| - 1] + [a[|a| - 1] + [ch]]
  {
    assert (s + [ch])[..|s|] == s[..|s|];
    SplitPrefixAgree(s, s + [ch], |s|, sep);
    assert (s + [ch])[|s|] == ch;
  }

  /** Where the last piece of the split of `s[..n]` starts: just after the
      last separator, or at 0 when there is none. */
  function PieceStart(s: string, n: nat, sep: char): (k: nat)
    requires n <= |s|
    ensures k <= n
    ensures forall i :: k <= i < n ==> s[i] != sep
    ensures k > 0 ==> s[k - 1] == sep
  {
    if n == 0 then 0
    else if s[n - 1] == sep then n
    else PieceStart(s, n - 1, sep)
  }

  /** The last piece of the split of `s[..n]` is the text from
      `PieceStart` to `n`. */
  lemma {:induction false} SplitPrefixLast(s: string, n: nat, sep: char)
    requires n <= |s|
    ensures var parts := SplitPrefix(s, n, sep);
      parts[|parts| - 1] == s[PieceStart(s, n, sep)..n]
  {
    if n > 0 && s[n - 1] != sep {
      SplitPrefixLast(s, n - 1, sep);
      var k := PieceStart(s, n, sep);
      assert s[k..n] == s[k..n - 1] + [s[n - 1]];
    }
  }

  /** The last piece of a split is the text after the last separator, and
      all of `s` when there is none. */
  lemma SplitLastPiece(s: string, sep: char)
    ensures var parts := Split(s, sep);
      var w := parts[|parts| - 1];
      && |w| <= |s|
      && w == s[|s| - |w|..]
      && (|w| < |s| ==> s[|s| - |w| - 1] == sep)
      && NoSeparator(w, sep)
  {
    SplitPrefixLast(s, |s|, sep);
    var k := PieceStart(s, |s|, sep);
    var w := s[k..];
    assert s[k..|s|] == w;
    assert forall i :: 0 <= i < |w| ==> w[i] == s[k + i];
  }

  /** `parts.join(sep)`. */
  function Join(parts: seq<string>, sep: char): string
    requires |parts| >= 1
  {
    if |parts| == 1 then parts[0]
    else Join(parts[..|parts| - 1], sep) + [sep] + parts[|parts| - 1]
  }

  /** Joining the pieces of a split restores the string. */
  lemma {:induction false} JoinSplit(s: string, sep: char)
    ensures Join(Split(s, sep), sep) == s
  {
    if |s| > 0 {
      var prefix := s[..|s| - 1];
      var ch := s[|s| - 1];
      assert s == prefix + [ch];
      var init := Split(prefix, sep);
      JoinSplit(prefix, sep);
      SplitSnoc(prefix, ch, sep);
      var parts := Split(s, sep);
      if ch == sep {
        assert parts[..|parts| - 1] == init;
      } else if |init| > 1 {
        assert parts[..|parts| - 1] == init[..|init| - 1];
        assert Join(init, sep) == Join(init[..|init| - 1], sep) + [sep] + init[|init| - 1];
      }
    }
  }

  /** Appending separator-free text extends the last piece of a split. */
  lemma {:induction false} SplitAppend(x: string, p: string, sep: char)
    requires NoSeparator(p, sep)
    ensures var a := Split(x, sep);
      Split(x + p, sep) == a[..|a| - 1] + [a[|a| - 1] + p]
    decreases |p|
  {
    var a := Split(x, sep);
    if |p| == 0 {
      assert x + p == x;
      assert a[|a| - 1] + p == a[|a| - 1];
      DropLast(a);
    } else {
      var init := p[..|p| - 1];
      var ch := p[|p| - 1];
      assert NoSeparator(init, sep) by { assert forall k :: 0 <= k < |init| ==> init[k] == p[k]; }
      SplitAppend(x, init, sep);
      DropLast(p);
      SplitAppendStep(x, init, ch, sep);
    }
  }

  /** One more non-separator character keeps extending the last piece. */
  lemma SplitAppendStep(x: string, init: string, ch: char, sep: char)
    requires ch != sep
    requires var a := Split(x, sep);
      Split(x + init, sep) == a[..|a| - 1] + [a[|a| - 1] + init]
    ensures var a := Split(x, sep);
      Split(x + (init + [ch]), sep) == a[..|a| - 1] + [a[|a| - 1] + (init + [ch])]
  {
    var a := Split(x, sep);
    SplitSnoc(x + init, ch, sep);
    ExtendLast(Split(x + init, sep), a[..|a| - 1], a[|a| - 1], init, ch);
    assert x + (init + [ch]) == (x + init) + [ch];
  }

  /** Extending the last element of `front + [last + tail]` by `ch`. */
  lemma ExtendLast(parts: seq<string>, front: seq<string>, last: string, tail: string, ch: char)
    requires parts == front + [last + tail]
    ensures parts[..|parts| - 1] + [parts[|parts| - 1] + [ch]] == front + [last + (tail + [ch])]
  {
    assert parts[..|parts| - 1] == front;
    assert (last + tail) + [ch] == last + (tail + [ch]);
  }

  /** A non-empty sequence is its front followed by its last element. */
  lemma DropLast<T>(s: seq<T>)
    requires |s| > 0
    ensures s[..|s| - 1] + [s[|s| - 1]] == s
  {
  }

  /** Splitting the join of separator-free pieces gives the pieces back. */
  lemma {:induction false} SplitJoin(parts: seq<string>, sep: char)
    requires |parts| >= 1
    requires forall i :: 0 <= i < |parts| ==> NoSeparator(parts[i], sep)
    ensures Split(Join(parts, sep), sep) == parts
  {
    var last := parts[|parts| - 1];
    assert NoSeparator(last, sep);
    if |parts| == 1 {
      SplitAppend("", last, sep);
      assert "" + last == last;
    } else {
      var init := parts[..|parts| - 1];
      assert forall i :: 0 <= i < |init| ==> init[i] == parts[i];
      SplitJoin(init, sep);
      SplitAfterSeparator(Join(init, sep), init, last, sep);
      DropLast(parts);
    }
  }

  /** A separator and then separator-free text add one piece to a split. */
  lemma SplitAfterSeparator(x: string, a: seq<string>, p: string, sep: char)
    requires Split(x, sep) == a && NoSeparator(p, sep)
    ensures Split(x + [sep] + p, sep) == a + [p]
  {
    SplitSnoc(x, sep, sep);
    var b := a + [""];
    SplitAppend(x + [sep], p, sep);
    assert b[..|b| - 1] == a;
    assert b[|b| - 1] + p == p;
  }

  // ---------------------------------------------------------------------------
  // The space handler's typed word and the character count
  // ---------------------------------------------------------------------------

  /** The word the space handler scores: split the trimmed field value on
      `' '` and take the last piece. */
  function TypedWord(value: string): string {
    var parts := Split(Trim(value), ' ');
    parts[|parts| - 1]
  }

  /** The typed word is the text after the last space of the trimmed value,
      holds no space, and is the whole trimmed value when that has no space. */
  lemma TypedWordLastToken(value: string)
    ensures var w, t := TypedWord(value), Trim(value);
      && NoSeparator(w, ' ')
      && |w| <= |t|
      && w == t[|t| - |w|..]
      && (|w| < |t| ==> t[|t| - |w| - 1] == ' ')
      && (NoSeparator(t, ' ') ==> w == t)
  {
    SplitLastPiece(Trim(value), ' ');
  }

  /** A field holding only whitespace yields the empty word. */
  lemma TypedWordOfBlank(value: string)
    requires AllWhitespace(value)
    ensures TypedWord(value) == ""
  {
  }

  /** `s.replace(/\s+/g, '')`: `s` with its whitespace removed. */
  function RemoveWhitespace(s: string): (r: string)
    ensures |r| <= |s|
    ensures NoWhitespace(r)
  {
    if |s| == 0 then ""
    else
      var init := s[..|s| - 1];
      var ch := s[|s| - 1];
      assert s == init + [ch];
      var r := RemoveWhitespace(init);
      if IsWhitespace(ch) then r else r + [ch]
  }

  /** Whitespace removal keeps every other character, as often as it occurs. */
  lemma {:induction false} RemoveWhitespaceKeeps(s: string, ch: char)
    requires !IsWhitespace(ch)
    ensures multiset(RemoveWhitespace(s))[ch] == multiset(s)[ch]
  {
    if |s| > 0 {
      var init := s[..|s| - 1];
      DropLast(s);
      RemoveWhitespaceKeeps(init, ch);
      assert multiset(s) == multiset(init) + multiset{s[|s| - 1]};
    }
  }

  /** Whitespace removal distributes over concatenation. */
  lemma {:induction false} RemoveWhitespaceAppend(a: string, b: string)
    ensures RemoveWhitespace(a + b) == RemoveWhitespace(a) + RemoveWhitespace(b)
  {
    if |b| == 0 {
      assert a + b == a;
    } else {
      var b' := b[..|b| - 1];
      assert (a + b)[..|a + b| - 1] == a + b';
      RemoveWhitespaceAppend(a, b');
    }
  }

  /** Whitespace-only text leaves nothing behind. */
  lemma {:induction false} RemoveAllWhitespace(s: string)
    requires AllWhitespace(s)
    ensures RemoveWhitespace(s) == ""
  {
    if |s| > 0 {
      RemoveAllWhitespace(s[..|s| - 1]);
    }
  }

  /** Text without whitespace is kept as it is. */
  lemma {:induction false} RemoveNoWhitespace(s: string)
    requires NoWhitespace(s)
    ensures RemoveWhitespace(s) == s
  {
    if |s| > 0 {
      var init := s[..|s| - 1];
      assert NoWhitespace(init) by {
        assert forall i :: 0 <= i < |init| ==> init[i] == s[i];
      }
      RemoveNoWhitespace(init);
      assert !IsWhitespace(s[|s| - 1]);
      DropLast(s);
    }
  }

  /** The number of non-whitespace characters in the field. */
  function CharacterCount(value: string): nat {
    |RemoveWhitespace(value)|
  }

  /** Surrounding whitespace does not change the character count. */
  lemma CharacterCountTrim(s: string)
    ensures CharacterCount(Trim(s)) == CharacterCount(s)
  {
    var lead := LeadingSpace(s);
    var t := Trim(s);
    TrimSurround(s);
    RemoveSurroundingWhitespace(s[..lead], t, s[lead + |t|..]);
  }

  /** `s` is whitespace, then its trim, then whitespace. */
  lemma TrimSurround(s: string)
    ensures var lead := LeadingSpace(s);
      var t := Trim(s);
      && s == s[..lead] + t + s[lead + |t|..]
      && AllWhitespace(s[..lead])
      && AllWhitespace(s[lead + |t|..])
  {
    var lead := LeadingSpace(s);
    var t := Trim(s);
    assert s == s[..lead] + s[lead..lead + |t|] + s[lead + |t|..];
    AllWhitespaceSlice(s, 0, lead);
    AllWhitespaceSlice(s, lead + |t|, |s|);
  }

  lemma AllWhitespaceSlice(s: string, i: nat, j: nat)
    requires i <= j <= |s|
    requires forall k :: i <= k < j ==> IsWhitespace(s[k])
    ensures AllWhitespace(s[i..j])
  {
  }

  /** Whitespace around a text leaves nothing behind once removed. */
  lemma RemoveSurroundingWhitespace(before: string, t: string, after: string)
    requires AllWhitespace(before) && AllWhitespace(after)
    ensures RemoveWhitespace(before + t + after) == RemoveWhitespace(t)
  {
    RemoveWhitespaceAppend(before + t, after);
    RemoveWhitespaceAppend(before, t);
    RemoveAllWhitespace(before);
    RemoveAllWhitespace(after);
    assert "" + RemoveWhitespace(t) + "" == RemoveWhitespace(t);
  }
}
