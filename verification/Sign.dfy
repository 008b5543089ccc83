/** The text that is signed for a store path: it does not depend on the order in which the references
    are listed. */
module Signing {
  import opened Text
  import opened StorePaths
  import opened NarInfos

  /** `a <= b` in the order of `sort.Strings`. */
  predicate Before(a: string, b: string) {
    a == "" || (b != "" && (a[0] < b[0] || (a[0] == b[0] && Before(a[1..], b[1..]))))
  }

  lemma {:induction false} BeforeTotal(a: string, b: string)
    ensures Before(a, b) || Before(b, a)
    ensures Before(a, b) && Before(b, a) ==> a == b
  {
    if a != "" && b != "" {
      BeforeTotal(a[1..], b[1..]);
      assert a == [a[0]] + a[1..] && b == [b[0]] + b[1..];
    }
  }

  lemma {:induction false} BeforeTransitive(a: string, b: string, c: string)
    requires Before(a, b) && Before(b, c)
    ensures Before(a, c)
  {
    if a != "" && a[0] == b[0] == c[0] {
      BeforeTransitive(a[1..], b[1..], c[1..]);
    }
  }

  /** The order is that of the first difference, a prefix coming first. */
  lemma {:induction false} BeforeIff(a: string, b: string)
    ensures Before(a, b) <==>
      a <= b || exists i :: 0 <= i < |a| && i < |b| && a[..i] == b[..i] && a[i] < b[i]
  {
    if a != "" && b != "" {
      BeforeIff(a[1..], b[1..]);
      if a[0] == b[0] {
        FirstDifferenceIff(a, b);
      } else if a[0] < b[0] {
        assert a[..0] == b[..0];
      } else {
        forall i | 0 < i < |a| && i < |b| ensures a[..i] != b[..i] {
          assert a[..i][0] == a[0] && b[..i][0] == b[0];
        }
      }
    }
  }

  lemma FirstDifferenceIff(a: string, b: string)
    requires a != "" && b != "" && a[0] == b[0]
    ensures a <= b <==> a[1..] <= b[1..]
    ensures (exists i :: 0 <= i < |a| && i < |b| && a[..i] == b[..i] && a[i] < b[i]) <==>
      exists i :: 0 <= i < |a[1..]| && i < |b[1..]| && a[1..][..i] == b[1..][..i] && a[1..][i] < b[1..][i]
  {
    assert a == [a[0]] + a[1..] && b == [b[0]] + b[1..];
    forall i | 0 < i < |a| && i < |b| ensures a[..i] == b[..i] <==> a[1..][..i - 1] == b[1..][..i - 1] {
      assert a[..i] == [a[0]] + a[1..][..i - 1] && b[..i] == [b[0]] + b[1..][..i - 1];
      assert a[..i][1..] == a[1..][..i - 1] && b[..i][1..] == b[1..][..i - 1];
    }
    if i :| 0 <= i < |a| && i < |b| && a[..i] == b[..i] && a[i] < b[i] {
      assert a[1..][..i - 1] == b[1..][..i - 1] && a[1..][i - 1] < b[1..][i - 1];
    }
    if i :| 0 <= i < |a[1..]| && i < |b[1..]| && a[1..][..i] == b[1..][..i] && a[1..][i] < b[1..][i] {
      assert a[..i + 1] == b[..i + 1] && a[i + 1] < b[i + 1];
    }
  }

  ghost predicate IsSorted(s: seq<string>) {
    forall i, j | 0 <= i < j < |s| :: Before(s[i], s[j])
  }

  lemma SmallestFirst(s: seq<string>, t: seq<string>)
    requires s != [] && t != [] && IsSorted(s) && IsSorted(t) && s[0] in multiset(t) && t[0] in multiset(s)
    ensures s[0] == t[0]
  {
    BeforeTotal(s[0], t[0]);
  }

  /** There is only one way to sort: whatever algorithm `sort.Strings` uses, this is its result. */
  lemma {:induction false} SortedUnique(s: seq<string>, t: seq<string>)
    requires IsSorted(s) && IsSorted(t) && multiset(s) == multiset(t)
    ensures s == t
  {
    if s == [] {
      assert multiset(t) == multiset{};
    } else {
      assert s[0] in multiset(s) && t[0] in multiset(t);
      SmallestFirst(s, t);
      RestOf(s);
      RestOf(t);
      SortedUnique(s[1..], t[1..]);
    }
  }

  lemma RestOf(s: seq<string>)
    requires s != [] && IsSorted(s)
    ensures multiset(s[1..]) == multiset(s) - multiset{s[0]} && IsSorted(s[1..]) && s == [s[0]] + s[1..]
  {
    assert s == [s[0]] + s[1..];
  }

  function InsertSorted(s: seq<string>, x: string): seq<string> {
    if s == [] || Before(x, s[0]) then [x] + s else [s[0]] + InsertSorted(s[1..], x)
  }

  lemma {:induction false} InsertKeepsSorted(s: seq<string>, x: string)
    requires IsSorted(s)
    ensures IsSorted(InsertSorted(s, x)) && multiset(InsertSorted(s, x)) == multiset(s) + multiset{x}
  {
    if s != [] && !Before(x, s[0]) {
      InsertKeepsSorted(s[1..], x);
      assert s == [s[0]] + s[1..];
      var rest := InsertSorted(s[1..], x);
      BeforeTotal(x, s[0]);
      forall i | 0 <= i < |rest| ensures Before(s[0], rest[i]) {
        assert rest[i] in multiset(rest);
        assert rest[i] == x || rest[i] in s[1..];
      }
      FirstBeforeSorted(s[0], rest);
    } else {
      forall i | 0 <= i < |s| ensures Before(x, s[i]) {
        if i > 0 {
          BeforeTransitive(x, s[0], s[i]);
        }
      }
      FirstBeforeSorted(x, s);
    }
  }

  lemma FirstBeforeSorted(x: string, s: seq<string>)
    requires IsSorted(s) && forall i | 0 <= i < |s| :: Before(x, s[i])
    ensures IsSorted([x] + s) && multiset([x] + s) == multiset(s) + multiset{x}
  {
  }

  /** `/nix/store/` and the base name of each reference. */
  function StorePathsOf(refs: seq<string>): seq<string> {
    seq(|refs|, i requires 0 <= i < |refs| => STORE_DIR + Base(refs[i]))
  }

  ghost predicate IsFingerprint(storePath: string, narHash: string, narSize: nat, refs: seq<string>, text: string) {
    exists sorted | IsSorted(sorted) && multiset(sorted) == multiset(StorePathsOf(refs)) ::
      text == "1;" + storePath + ";" + narHash + ";" + Decimal(narSize) + ";" + Join(sorted, ',')
  }

  method SortStrings(s: seq<string>) returns (sorted: seq<string>)
    ensures IsSorted(sorted) && multiset(sorted) == multiset(s)
  {
    sorted := [];
    for i := 0 to |s|
      invariant IsSorted(sorted) && multiset(sorted) == multiset(s[..i])
    {
      InsertKeepsSorted(sorted, s[i]);
      assert s[..i + 1] == s[..i] + [s[i]];
      sorted := InsertSorted(sorted, s[i]);
    }
    assert s[..|s|] == s;
  }

  method Fingerprint(storePath: string, narHash: string, narSize: nat, refs: seq<string>) returns (text: string)
    ensures IsFingerprint(storePath, narHash, narSize, refs, text)
  {
    var refPaths := [];
    for i := 0 to |refs|
      invariant refPaths == StorePathsOf(refs[..i])
    {
      refPaths := refPaths + [STORE_DIR + Base(refs[i])];
    }
    assert refs[..|refs|] == refs;
    var sorted := SortStrings(refPaths);
    text := "1;" + storePath + ";" + narHash + ";" + Decimal(narSize) + ";" + Join(sorted, ',');
  }

  /** References in another order, and references that name the same objects, give the same text. */
  lemma FingerprintIgnoresOrder(storePath: string, narHash: string, narSize: nat, refs: seq<string>, refs': seq<string>,
                                text: string, text': string)
    requires multiset(StorePathsOf(refs)) == multiset(StorePathsOf(refs'))
    requires IsFingerprint(storePath, narHash, narSize, refs, text) &&
      IsFingerprint(storePath, narHash, narSize, refs', text')
    ensures text == text'
  {
    var s :| IsSorted(s) && multiset(s) == multiset(StorePathsOf(refs))
             && text == "1;" + storePath + ";" + narHash + ";" + Decimal(narSize) + ";" + Join(s, ',');
    var t :| IsSorted(t) && multiset(t) == multiset(StorePathsOf(refs'))
             && text' == "1;" + storePath + ";" + narHash + ";" + Decimal(narSize) + ";" + Join(t, ',');
    SortedUnique(s, t);
  }

  // ----- what the text says -----

  /** The parts of a text can be told apart: none but the last contains a semicolon, and no reference a comma. */
  predicate Separable(storePath: string, narHash: string, refs: seq<string>) {
    && Free(storePath, {';'}) && Free(narHash, {';'})
    && forall i | 0 <= i < |refs| :: Free(Base(refs[i]), {';', ','})
  }

  lemma {:induction false} DecimalFree(n: nat, seps: set<char>)
    requires forall c | c in seps :: c < '0' || c > '9'
    ensures Free(Decimal(n), seps)
  {
    if n >= 10 {
      DecimalFree(n / 10, seps);
      DigitValue(n % 10);
    } else {
      DigitValue(n);
    }
  }

  lemma SortedFree(refs: seq<string>, sorted: seq<string>)
    requires multiset(sorted) == multiset(StorePathsOf(refs))
    requires forall i | 0 <= i < |refs| :: Free(Base(refs[i]), {';', ','})
    ensures AllFree(sorted, {','}) && AllFree(sorted, {';'})
  {
    forall k | 0 <= k < |sorted| ensures Free(sorted[k], {','}) && Free(sorted[k], {';'}) {
      assert sorted[k] in multiset(StorePathsOf(refs));
      var i :| 0 <= i < |refs| && sorted[k] == StorePathsOf(refs)[i];
      assert sorted[k] == STORE_DIR + Base(refs[i]);
      BelowStore(Base(refs[i]));
    }
  }

  lemma BelowStore(name: string)
    requires Free(name, {';', ','})
    ensures Free(STORE_DIR + name, {','}) && Free(STORE_DIR + name, {';'})
  {
    assert Free(STORE_DIR, {';', ','});
  }

  lemma JoinedText(storePath: string, narHash: string, number: string, list: string)
    ensures Join(["1", storePath, narHash, number, list], ';') ==
      "1;" + storePath + ";" + narHash + ";" + number + ";" + list
  {
    var d, c, b := [number, list], [narHash, number, list], [storePath, narHash, number, list];
    assert d[1..] == [list] && c[1..] == d && b[1..] == c && ["1", storePath, narHash, number, list][1..] == b;
    assert Join(d, ';') == number + ";" + list;
    assert Join(c, ';') == narHash + ";" + Join(d, ';');
    assert Join(b, ';') == storePath + ";" + Join(c, ';');
    assert "1" + ";" == "1;";
  }

  /** The signed text names the path, the hash and the size, in this order, and then all references, sorted. */
  lemma FingerprintSays(storePath: string, narHash: string, narSize: nat, refs: seq<string>, text: string)
    requires IsFingerprint(storePath, narHash, narSize, refs, text) && Separable(storePath, narHash, refs)
    ensures var parts := Split(text, {';'});
      && |parts| == 5 && parts[0] == "1" && parts[1] == storePath && parts[2] == narHash && Value(parts[3]) == narSize
      && (refs == [] ==> parts[4] == "")
      && (refs == [] || IsSorted(Split(parts[4], {','})))
      && (refs == [] || multiset(Split(parts[4], {','})) == multiset(StorePathsOf(refs)))
    ensures (forall i | 0 <= i < |refs| :: StoreReference(refs[i])) ==> StorePathsOf(refs) == refs
  {
    var sorted :| IsSorted(sorted) && multiset(sorted) == multiset(StorePathsOf(refs))
             && text == "1;" + storePath + ";" + narHash + ";" + Decimal(narSize) + ";" + Join(sorted, ',');
    var parts := ["1", storePath, narHash, Decimal(narSize), Join(sorted, ',')];
    SortedFree(refs, sorted);
    JoinFree(sorted, ',', {';'});
    DecimalFree(narSize, {';'});
    DecimalValue(narSize);
    JoinedText(storePath, narHash, Decimal(narSize), Join(sorted, ','));
    SplitJoin(parts, ';', {';'});
    assert |multiset(sorted)| == |sorted| && |multiset(StorePathsOf(refs))| == |refs|;
    if forall i | 0 <= i < |refs| :: StoreReference(refs[i]) {
      BasesOfReferences(refs);
    }
    if refs != [] {
      SplitJoin(sorted, ',', {','});
    }
  }
}
