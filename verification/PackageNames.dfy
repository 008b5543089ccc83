/** The package a store object is a version of: its name up to the segment that looks like a version. */
module PackageNames {
  import opened Text

  predicate StartsWithDigit(segment: string) {
    segment != "" && '0' <= segment[0] <= '9'
  }

  /** Surely a version: it begins with a digit and has a dot or at least four characters. */
  predicate SureVersion(segment: string) {
    StartsWithDigit(segment) && ('.' in segment || |segment| >= 4)
  }

  /** The last segment but the first for which `found` holds, or 0. */
  function LastSegment(parts: seq<string>, found: string -> bool): (i: nat)
    ensures i == 0 || (i < |parts| && found(parts[i]))
    ensures forall j | i < j < |parts| :: !found(parts[j])
    decreases |parts|
  {
    if |parts| <= 1 then 0
    else if found(parts[|parts| - 1]) then |parts| - 1
    else LastSegment(parts[..|parts| - 1], found)
  }

  /** Where the version begins, or 0 if the name has none. */
  function VersionSegment(parts: seq<string>): nat {
    var sure := LastSegment(parts, SureVersion);
    if sure > 0 then sure else LastSegment(parts, StartsWithDigit)
  }

  function PackageOf(name: string): string {
    var parts := Split(name, {'-'});
    var i := VersionSegment(parts);
    if 0 < i < |parts| then Join(parts[..i], '-') else name
  }

  lemma {:induction false} LastSegmentIs(parts: seq<string>, found: string -> bool, i: nat)
    requires 0 < i < |parts| && found(parts[i]) && forall j | i < j < |parts| :: !found(parts[j])
    ensures LastSegment(parts, found) == i
    decreases |parts|
  {
    if i < |parts| - 1 {
      LastSegmentIs(parts[..|parts| - 1], found, i);
    }
  }

  lemma {:induction false} NoSegment(parts: seq<string>, found: string -> bool)
    requires forall j | 0 < j < |parts| :: !found(parts[j])
    ensures LastSegment(parts, found) == 0
    decreases |parts|
  {
    if |parts| > 1 {
      NoSegment(parts[..|parts| - 1], found);
    }
  }

  /** The first pass over the segments, from the last down to the second. */
  method FindSure(parts: seq<string>) returns (i: nat)
    requires parts != []
    ensures i == LastSegment(parts, SureVersion)
  {
    i := |parts| - 1;
    while i > 0
      invariant i < |parts| && forall j | i < j < |parts| :: !SureVersion(parts[j])
    {
      var p := parts[i];
      if |p| > 0 && '0' <= p[0] <= '9' && ('.' in p || |p| >= 4) {
        LastSegmentIs(parts, SureVersion, i);
        return;
      }
      i := i - 1;
    }
    NoSegment(parts, SureVersion);
  }

  /** The second pass. */
  method FindDigit(parts: seq<string>) returns (i: nat)
    requires parts != []
    ensures i == LastSegment(parts, StartsWithDigit)
  {
    i := |parts| - 1;
    while i > 0
      invariant i < |parts| && forall j | i < j < |parts| :: !StartsWithDigit(parts[j])
    {
      var p := parts[i];
      if |p| > 0 && '0' <= p[0] <= '9' {
        LastSegmentIs(parts, StartsWithDigit, i);
        return;
      }
      i := i - 1;
    }
    NoSegment(parts, StartsWithDigit);
  }

  method BasePackageName(name: string) returns (base: string)
    ensures base == PackageOf(name)
  {
    var parts := Split(name, {'-'});
    var i := FindSure(parts);
    if i > 0 {
      return Join(parts[..i], '-');
    }
    i := FindDigit(parts);
    if i > 0 {
      return Join(parts[..i], '-');
    }
    base := name;
  }

  // ----- what the names of packages are -----

  lemma {:induction false} JoinParts(a: seq<string>, b: seq<string>, sep: char)
    requires a != [] && b != []
    ensures Join(a + b, sep) == Join(a, sep) + [sep] + Join(b, sep)
  {
    if |a| == 1 {
      assert (a + b)[1..] == b;
    } else {
      assert (a + b)[1..] == a[1..] + b;
      JoinParts(a[1..], b, sep);
    }
  }

  lemma {:induction false} SplitOfParts(s: string, t: string, sep: char)
    ensures Split(s + [sep] + t, {sep}) == Split(s, {sep}) + Split(t, {sep})
    decreases |s|
  {
    var all := s + [sep] + t;
    if s == "" {
      assert all[1..] == t;
    } else {
      assert all[1..] == s[1..] + [sep] + t;
      SplitOfParts(s[1..], t, sep);
    }
  }

  /** What is left out of a name is a version: a dash, a digit and what follows. */
  lemma PackageIsFront(name: string)
    ensures var base := PackageOf(name);
      base == name || exists version :: name == base + "-" + version && StartsWithDigit(version)
  {
    var parts := Split(name, {'-'});
    var i := VersionSegment(parts);
    if 0 < i < |parts| {
      JoinSplit(name, '-');
      assert parts == parts[..i] + parts[i..];
      JoinParts(parts[..i], parts[i..], '-');
      var version := Join(parts[i..], '-');
      assert version[0] == parts[i][0];
      assert name == PackageOf(name) + "-" + version;
    }
  }

  /** All versions of a package are grouped together: whatever the package is called, a version that has a dot or at
      least four characters is told apart from it, ... */
  lemma VersionsShareBase(base: string, version: string)
    requires version != "" && '0' <= version[0] <= '9' && ('.' in version || |version| >= 4) && Free(version, {'-'})
    ensures PackageOf(base + "-" + version) == base
  {
    var front, parts := Split(base, {'-'}), Split(base + "-" + version, {'-'});
    SplitOfParts(base, version, '-');
    SplitFree(version, {'-'});
    assert parts == front + [version];
    LastSegmentIs(parts, SureVersion, |front|);
    assert parts[..|front|] == front;
    JoinSplit(base, '-');
  }

  /** ... and a shorter one exactly when the package's own name has nothing that looks surely like a version. */
  lemma ShortVersionIff(base: string, version: string)
    requires version != "" && '0' <= version[0] <= '9' && '.' !in version && |version| < 4 && Free(version, {'-'})
    ensures PackageOf(base + "-" + version) == base <==>
      forall i | 0 < i < |Split(base, {'-'})| :: !SureVersion(Split(base, {'-'})[i])
  {
    var front, parts := Split(base, {'-'}), Split(base + "-" + version, {'-'});
    SplitOfParts(base, version, '-');
    SplitFree(version, {'-'});
    assert parts == front + [version];
    assert forall i | 0 < i < |front| :: parts[i] == front[i];
    if forall i | 0 < i < |front| :: !SureVersion(front[i]) {
      NoSegment(parts, SureVersion);
      LastSegmentIs(parts, StartsWithDigit, |front|);
      assert parts[..|front|] == front;
      JoinSplit(base, '-');
    } else {
      var i := LastSegment(parts, SureVersion);
      ShorterFront(base, front, parts, i);
    }
  }

  lemma ShorterFront(base: string, front: seq<string>, parts: seq<string>, i: nat)
    requires front == Split(base, {'-'}) && front <= parts && 0 < i < |front|
    ensures Join(parts[..i], '-') != base
  {
    JoinSplit(base, '-');
    assert front == front[..i] + front[i..] && parts[..i] == front[..i];
    JoinParts(front[..i], front[i..], '-');
  }

  /** A name without such a segment is a package by itself. */
  lemma NoVersionNoCut(name: string)
    requires forall i | 0 < i < |Split(name, {'-'})| :: !StartsWithDigit(Split(name, {'-'})[i])
    ensures PackageOf(name) == name
  {
    NoSegment(Split(name, {'-'}), SureVersion);
    NoSegment(Split(name, {'-'}), StartsWithDigit);
  }
}
