/** The string operations of Go's `strings` and `path/filepath` that the cache relies on, on sequences
    of characters.  A separator is given as the set of characters that separate, so that
    splitting on a comma, on a newline and on white space are one function. */
module Text {

  /** The pieces of `s` between separators; always at least one, possibly empty ones. */
  function Split(s: string, seps: set<char>): (parts: seq<string>)
    ensures |parts| >= 1
  {
    if s == "" then [""]
    else
      var rest := Split(s[1..], seps);
      if s[0] in seps then [""] + rest else [[s[0]] + rest[0]] + rest[1..]
  }

  function Join(parts: seq<string>, sep: char): string {
    if |parts| == 0 then ""
    else if |parts| == 1 then parts[0]
    else parts[0] + [sep] + Join(parts[1..], sep)
  }

  predicate Free(s: string, seps: set<char>) {
    forall i | 0 <= i < |s| :: s[i] !in seps
  }

  predicate AllFree(parts: seq<string>, seps: set<char>) {
    forall i | 0 <= i < |parts| :: Free(parts[i], seps)
  }

  lemma {:induction false} SplitPiecesFree(s: string, seps: set<char>)
    ensures AllFree(Split(s, seps), seps)
  {
    if s != "" {
      SplitPiecesFree(s[1..], seps);
    }
  }

  lemma {:induction false} JoinSplit(s: string, sep: char)
    ensures Join(Split(s, {sep}), sep) == s
  {
    if s != "" {
      JoinSplit(s[1..], sep);
      var rest := Split(s[1..], {sep});
      if s[0] != sep {
        var parts := Split(s, {sep});
        assert parts[1..] == rest[1..];
      }
    }
  }

  lemma {:induction false} SplitFree(s: string, seps: set<char>)
    requires Free(s, seps)
    ensures Split(s, seps) == [s]
  {
    if s != "" {
      SplitFree(s[1..], seps);
      assert [s[0]] + s[1..] == s;
    }
  }

  lemma {:induction false} SplitAtFirst(head: string, sep: char, tail: string, seps: set<char>)
    requires Free(head, seps) && sep in seps
    ensures Split(head + [sep] + tail, seps) == [head] + Split(tail, seps)
  {
    var s := head + [sep] + tail;
    if head == "" {
      assert s[1..] == tail;
    } else {
      assert s[1..] == head[1..] + [sep] + tail;
      SplitAtFirst(head[1..], sep, tail, seps);
      assert [head[0]] + head[1..] == head;
    }
  }

  lemma {:induction false} SplitJoin(parts: seq<string>, sep: char, seps: set<char>)
    requires |parts| > 0 && sep in seps && AllFree(parts, seps)
    ensures Split(Join(parts, sep), seps) == parts
  {
    if |parts| == 1 {
      SplitFree(parts[0], seps);
    } else {
      SplitAtFirst(parts[0], sep, Join(parts[1..], sep), seps);
      SplitJoin(parts[1..], sep, seps);
    }
  }

  /** Splitting undoes joining exactly when there is something to join and no piece contains the
      separator. */
  lemma SplitJoinIff(parts: seq<string>, sep: char)
    ensures Split(Join(parts, sep), {sep}) == parts <==> |parts| > 0 && AllFree(parts, {sep})
  {
    SplitPiecesFree(Join(parts, sep), {sep});
    if |parts| > 0 && AllFree(parts, {sep}) {
      SplitJoin(parts, sep, {sep});
    }
  }

  // ----- prefixes and suffixes -----

  predicate HasPrefix(s: string, prefix: string) {
    prefix <= s
  }

  predicate HasSuffix(s: string, suffix: string) {
    |suffix| <= |s| && s[|s| - |suffix|..] == suffix
  }

  function TrimPrefix(s: string, prefix: string): string {
    if HasPrefix(s, prefix) then s[|prefix|..] else s
  }

  /** The characters `unicode.IsSpace` accepts. */
  const WHITESPACE: set<char> := {
    ' ', '\t', '\n', '\r', '\U{0B}', '\U{0C}', '\U{85}', '\U{A0}', '\U{1680}',
    '\U{2000}', '\U{2001}', '\U{2002}', '\U{2003}', '\U{2004}', '\U{2005}', '\U{2006}', '\U{2007}',
    '\U{2008}', '\U{2009}', '\U{200A}', '\U{2028}', '\U{2029}', '\U{202F}', '\U{205F}', '\U{3000}' }

  function NonEmpty(parts: seq<string>): seq<string> {
    if parts == [] then []
    else if parts[0] == "" then NonEmpty(parts[1..])
    else [parts[0]] + NonEmpty(parts[1..])
  }

  /** `strings.Fields`: the maximal runs without white space. */
  function Fields(s: string): seq<string> {
    NonEmpty(Split(s, WHITESPACE))
  }

  lemma {:induction false} NonEmptyIdentity(parts: seq<string>)
    requires forall i | 0 <= i < |parts| :: parts[i] != ""
    ensures NonEmpty(parts) == parts
  {
    if parts != [] {
      NonEmptyIdentity(parts[1..]);
    }
  }

  lemma FieldsOfJoin(words: seq<string>)
    requires AllFree(words, WHITESPACE) && forall i | 0 <= i < |words| :: words[i] != ""
    ensures Fields(Join(words, ' ')) == words
  {
    if words != [] {
      SplitJoin(words, ' ', WHITESPACE);
      NonEmptyIdentity(words);
    } else {
      assert NonEmpty([""]) == NonEmpty([""][1..]);
    }
  }
}
