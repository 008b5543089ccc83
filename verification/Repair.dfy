/** Rebuilding index entries from manifests, and the `index repair` command. */
module Repairs {
  import opened Wrappers
  import opened Text
  import opened StorePaths
  import opened CacheIndexes
  import opened Registries

  datatype RepairError = Unreachable | ManifestNotFound | NoAnnotations | NoLayers | InvalidHash | InvalidDigest

  datatype Rebuild = Rebuilt(hash: string, item: IndexItem) | Refused(error: RepairError)

  function Annotation(annotations: map<string, string>, key: string): string {
    if key in annotations then annotations[key] else ""
  }

  function RefsOfAnnotation(refs: string): seq<string> {
    if refs == "" then [] else Split(refs, {','})
  }

  /** The entry that a live manifest describes. */
  function ItemFrom(m: Manifest, now: Time): IndexItem
    requires IsLive(m)
  {
    var a := m.annotations.value;
    NewItem(Annotation(a, "org.nix.name"), Annotation(a, "org.nix.narinfo"),
            ParseOciDigest(m.layers[0].digest).value, m.layers[0].size,
            RefsOfAnnotation(Annotation(a, "org.nix.references")), now)
  }

  function EntryFrom(tag: string, m: Manifest, now: Time): Rebuild {
    if m.annotations.None? then Refused(NoAnnotations)
    else if m.layers == [] then Refused(NoLayers)
    else if ParseNixHash(tag).None? then Refused(InvalidHash)
    else if ParseOciDigest(m.layers[0].digest).None? then Refused(InvalidDigest)
    else Rebuilt(ParseNixHash(tag).value, ItemFrom(m, now))
  }

  // ----- repair equals replay -----

  /** The references annotation gives the references back exactly when none contains a comma and they
      are not the list of one empty reference. */
  lemma RefsAnnotationIff(refs: seq<string>)
    ensures RefsOfAnnotation(Join(refs, ',')) == refs <==> AllFree(refs, {','}) && refs != [""]
  {
    SplitJoinIff(refs, ',');
    if |refs| > 1 {
      assert Join(refs, ',')[|refs[0]|] == ',';
    }
  }

  /** The entry rebuilt from a manifest a publisher pushed is the entry the publisher itself adds to the
      index, under the same condition and no other. */
  lemma RepairEqualsReplayIff(res: UploadResult, now: Time)
    requires IsNixHash(res.hash) && ParseOciDigest(res.digest) == Some(res.digest)
    ensures EntryFrom(res.hash, ManifestOf(res), now) == Rebuilt(res.hash, ItemOf(res, now))
            <==> AllFree(res.refs, {','}) && res.refs != [""]
    ensures EntryFrom(res.hash, ManifestOf(res), now).Rebuilt?
    ensures EntryFrom(res.hash, ManifestOf(res), now).item.(references := res.refs) == ItemOf(res, now)
  {
    NixHashIsCanonical(res.hash);
    RefsAnnotationIff(res.refs);
    assert IsLive(ManifestOf(res));
  }

  lemma EntryOfHash(r: State, hash: string, now: Time)
    requires IsNixHash(hash) && hash in r.manifests
    ensures EntryFrom(hash, r.manifests[hash], now).Rebuilt? <==> HasLive(r, hash)
    ensures HasLive(r, hash) ==>
      EntryFrom(hash, r.manifests[hash], now) == Rebuilt(hash, ItemFrom(r.manifests[hash], now))
  {
    NixHashIsCanonical(hash);
  }

  // ----- one entry -----

  /** Either the entry the manifest describes is added, or nothing changes and the error says why. */
  method RepairIndexEntry(registry: Registry, hash: string, index: CacheIndex, now: Time)
    returns (error: Option<RepairError>)
    modifies index
    ensures error.None? ==>
      && hash in registry.state.manifests
      && var rebuilt := EntryFrom(hash, registry.state.manifests[hash], now);
      && rebuilt.Rebuilt?
      && index.entries == old(index.entries)[rebuilt.hash := rebuilt.item]
    ensures error.Some? ==> index.entries == old(index.entries)
    ensures error == Some(Unreachable) ==> hash in registry.shaky
    ensures error == Some(ManifestNotFound) ==> hash !in registry.state.manifests
    ensures error.Some? && error.value !in {Unreachable, ManifestNotFound} ==>
      hash in registry.state.manifests && EntryFrom(hash, registry.state.manifests[hash], now) == Refused(error.value)
    ensures index.roots == old(index.roots)
  {
    var reply := registry.FetchManifest(hash);
    match reply {
      case NoAnswer => return Some(Unreachable);
      case NotFound => return Some(ManifestNotFound);
      case Found(m) =>
        if m.annotations.None? {
          return Some(NoAnnotations);
        }
        var name := Annotation(m.annotations.value, "org.nix.name");
        var narInfo := Annotation(m.annotations.value, "org.nix.narinfo");
        var refsText := Annotation(m.annotations.value, "org.nix.references");
        var refs := [];
        if refsText != "" {
          refs := Split(refsText, {','});
        }
        if |m.layers| == 0 {
          return Some(NoLayers);
        }
        var digest, size := m.layers[0].digest, m.layers[0].size;
        var nixHash, ociDigest := ParseNixHash(hash), ParseOciDigest(digest);
        if nixHash.None? {
          return Some(InvalidHash);
        }
        if ociDigest.None? {
          return Some(InvalidDigest);
        }
        index.AddEntry(nixHash.value, name, narInfo, ociDigest.value, size, refs, now);
        error := None;
    }
  }

  // ----- the whole index -----

  /** A path whose manifest is live but which the index does not list. */
  predicate Missing(r: State, tag: string) {
    IsNixHash(tag) && HasLive(r, tag) && tag !in CurrentIndex(r).entries
  }

  /** The entries that the manifests of `tags` describe. */
  function Described(r: State, tags: set<string>, now: Time): Entries {
    map t | t in tags && HasLive(r, t) :: ItemFrom(r.manifests[t], now)
  }

  function AllMissing(r: State, skipped: set<string>): set<string> {
    set t | t in r.manifests && Missing(r, t) && t !in skipped
  }

  /** The index as a repair leaves it, `skipped` being the tags whose manifests could not be had. */
  function RepairedEntries(r: State, skipped: set<string>, now: Time): Entries {
    CurrentIndex(r).entries + Described(r, AllMissing(r, skipped), now)
  }

  /** The unlisted hashes that some tag stands for, as the command reads tags: in lower case. */
  function Candidates(r: State): set<string> {
    set t | t in r.manifests && IsNixHash(ToLower(t)) && ToLower(t) !in CurrentIndex(r).entries :: ToLower(t)
  }

  datatype Outcome =
    | FetchIndexFailed
    | ListTagsFailed
    | UpToDate
    | DryRun(missing: seq<string>)
    | AllFailed(failed: nat)
    | PushFailed
    | Repaired(repaired: nat, failed: nat)

  lemma TagHasNoSpace(tag: string)
    requires IsTag(tag)
    ensures TrimSpace(ToLower(tag)) == ToLower(tag)
  {
    var lower := ToLower(tag);
    TagCharacterIsNoSpace(tag[0]);
    TagCharacterIsNoSpace(tag[|tag| - 1]);
    TrimSpaceIdentity(lower);
  }

  lemma TagCharacterIsNoSpace(c: char)
    requires IsTagCharacter(c) || c == '.' || c == '-'
    ensures Lower(c) !in WHITESPACE
  {
  }

  /** The hash a tag may stand for. */
  method CandidateHash(tag: string) returns (hash: Option<string>)
    requires IsTag(tag)
    ensures hash == if IsNixHash(ToLower(tag)) then Some(ToLower(tag)) else None
  {
    var lower := ToLower(tag);
    TagHasNoSpace(tag);
    assert ToLower(lower) == lower;
    if IsNixHash(lower) {
      NixHashIsCanonical(lower);
    }
    hash := if ParseNixHash(lower).Some? then Some(lower) else None;
  }

  function Listed(hashes: seq<string>): set<string> {
    set h | h in hashes
  }

  /** A tag that stands for `hash`. */
  predicate Names(tags: seq<string>, hash: string) {
    exists i | 0 <= i < |tags| :: ToLower(tags[i]) == hash
  }

  /** The tag stands for a hash that is not listed. */
  predicate Stands(tag: string, entries: Entries) {
    IsNixHash(ToLower(tag)) && ToLower(tag) !in entries
  }

  /** What tags stand for, in their order. */
  function StoodFor(tags: seq<string>, entries: Entries): seq<string> {
    if tags == [] then []
    else
      var last := tags[|tags| - 1];
      StoodFor(tags[..|tags| - 1], entries) + if Stands(last, entries) then [ToLower(last)] else []
  }

  method CandidateHashes(tags: seq<string>, entries: Entries) returns (candidates: seq<string>)
    requires forall i | 0 <= i < |tags| :: IsTag(tags[i])
    ensures candidates == StoodFor(tags, entries)
    ensures forall h :: h in candidates <==> IsNixHash(h) && h !in entries && Names(tags, h)
  {
    candidates := [];
    for i := 0 to |tags|
      invariant forall h :: h in candidates <==> IsNixHash(h) && h !in entries && Names(tags[..i], h)
      invariant candidates == StoodFor(tags[..i], entries)
    {
      NamesStep(tags, i);
      assert tags[..i + 1][..i] == tags[..i];
      var hash := CandidateHash(tags[i]);
      if hash.Some? && hash.value !in entries {
        candidates := candidates + [hash.value];
      }
    }
    assert tags[..|tags|] == tags;
  }

  lemma NamesStep(tags: seq<string>, i: nat)
    requires i < |tags|
    ensures forall h :: Names(tags[..i + 1], h) <==> Names(tags[..i], h) || h == ToLower(tags[i])
  {
    var before, after := tags[..i], tags[..i + 1];
    forall h ensures Names(after, h) <==> Names(before, h) || h == ToLower(tags[i]) {
      if Names(before, h) {
        var k :| 0 <= k < |before| && ToLower(before[k]) == h;
        assert ToLower(after[k]) == h;
      }
      if h == ToLower(tags[i]) {
        assert ToLower(after[i]) == h;
      }
      if Names(after, h) {
        var k :| 0 <= k < |after| && ToLower(after[k]) == h;
        assert k < i ==> ToLower(before[k]) == h;
      }
    }
  }

  // ----- counting -----

  /** How many of the strings are in `keys`. */
  ghost function CountIn(s: seq<string>, keys: iset<string>): nat {
    if s == [] then 0 else CountIn(s[..|s| - 1], keys) + if s[|s| - 1] in keys then 1 else 0
  }

  lemma {:induction false} CountWithout(s: seq<string>, keys: iset<string>, i: nat)
    requires i < |s|
    ensures CountIn(s, keys) == CountIn(s[..i] + s[i + 1..], keys) + if s[i] in keys then 1 else 0
    decreases |s|
  {
    var rest := s[..i] + s[i + 1..];
    if i == |s| - 1 {
      assert rest == s[..i];
    } else {
      CountWithout(s[..|s| - 1], keys, i);
      assert rest[..|rest| - 1] == s[..|s| - 1][..i] + s[..|s| - 1][i + 1..];
    }
  }

  lemma {:induction false} CountOfSame(s: seq<string>, t: seq<string>, keys: iset<string>)
    requires multiset(s) == multiset(t)
    ensures CountIn(s, keys) == CountIn(t, keys)
    decreases |s|
  {
    assert |s| == |multiset(s)| == |multiset(t)| == |t|;
    if s != [] {
      var last := s[|s| - 1];
      assert s == s[..|s| - 1] + [last];
      assert last in multiset(t);
      var i :| 0 <= i < |t| && t[i] == last;
      var rest := t[..i] + t[i + 1..];
      assert t == t[..i] + [last] + t[i + 1..];
      assert multiset(rest) == multiset(t[..i]) + multiset(t[i + 1..]) == multiset(t) - multiset{last};
      assert multiset(s[..|s| - 1]) == multiset(s) - multiset{last};
      CountOfSame(s[..|s| - 1], rest, keys);
      CountWithout(t, keys, i);
    }
  }

  lemma CountOneMore(s: seq<string>, x: string, keys: iset<string>)
    ensures CountIn(s + [x], keys) == CountIn(s, keys) + if x in keys then 1 else 0
  {
    assert (s + [x])[..|s|] == s;
  }

  ghost function StandingIn(tags: set<string>, entries: Entries, keys: iset<string>): set<string> {
    set t | t in tags && Stands(t, entries) && ToLower(t) in keys
  }

  /** The tags that stand for an unlisted hash in `keys`. */
  ghost function StandIns(r: State, keys: iset<string>): set<string> {
    StandingIn(r.manifests.Keys, CurrentIndex(r).entries, keys)
  }

  lemma OneMoreStanding(tags: set<string>, last: string, entries: Entries, keys: iset<string>)
    requires last !in tags
    ensures |StandingIn(tags + {last}, entries, keys)| ==
      |StandingIn(tags, entries, keys)| + if Stands(last, entries) && ToLower(last) in keys then 1 else 0
  {
    var before, after := StandingIn(tags, entries, keys), StandingIn(tags + {last}, entries, keys);
    assert after == before + if Stands(last, entries) && ToLower(last) in keys then {last} else {};
  }

  lemma {:induction false} CountStandIns(tags: seq<string>, entries: Entries, keys: iset<string>)
    requires EachOnce(tags)
    ensures CountIn(StoodFor(tags, entries), keys) == |StandingIn(Listed(tags), entries, keys)|
    decreases |tags|
  {
    if tags != [] {
      var front, last := tags[..|tags| - 1], tags[|tags| - 1];
      CountStandIns(front, entries, keys);
      assert tags == front + [last];
      assert Listed(tags) == Listed(front) + {last};
      assert last !in Listed(front);
      OneMoreStanding(Listed(front), last, entries, keys);
      if Stands(last, entries) {
        CountOneMore(StoodFor(front, entries), ToLower(last), keys);
      } else {
        assert StoodFor(tags, entries) == StoodFor(front, entries);
      }
    }
  }

  /** How far the workers are: what they have restored, what they could not reach, and what is left. */
  ghost predicate Progress(r: State, candidates: set<string>, todo: multiset<string>, fixed: set<string>,
                           unreachable: set<string>) {
    && fixed !! unreachable && fixed + unreachable <= candidates
    && forall h | h in candidates && h !in todo && HasLive(r, h) :: h in fixed || h in unreachable
  }

  lemma NextTried(r: State, all: set<string>, todo: multiset<string>, fixed: set<string>, unreachable: set<string>,
                  hash: string, done: bool, reached: bool)
    requires Progress(r, all, todo, fixed, unreachable) && hash in all
    requires !done && reached ==> !HasLive(r, hash)
    ensures done ==> Progress(r, all, todo - multiset{hash}, fixed + {hash}, unreachable - {hash})
    ensures !done && (reached || hash in fixed) ==> Progress(r, all, todo - multiset{hash}, fixed, unreachable)
    ensures !done && !reached && hash !in fixed ==> Progress(r, all, todo - multiset{hash}, fixed, unreachable + {hash})
  {
  }

  /** Of the candidates `tried` so far, those counted as repaired have a live manifest; those counted as failed have
      none, or the registry is shaky about it. */
  ghost predicate Counted(r: State, shaky: set<string>, tried: seq<string>, repaired: nat, failed: nat) {
    && repaired + failed == |tried|
    && repaired <= CountIn(tried, LiveTags(r)) && failed <= CountIn(tried, Failing(r, shaky))
  }

  lemma NextCounted(r: State, shaky: set<string>, tried: seq<string>, repaired: nat, failed: nat, hash: string)
    requires Counted(r, shaky, tried, repaired, failed)
    ensures HasLive(r, hash) ==> Counted(r, shaky, tried + [hash], repaired + 1, failed)
    ensures !HasLive(r, hash) || hash in shaky ==> Counted(r, shaky, tried + [hash], repaired, failed + 1)
  {
    CountOneMore(tried, hash, LiveTags(r));
    CountOneMore(tried, hash, Failing(r, shaky));
  }

  /** The candidates are those tried and those to do. */
  ghost predicate Shared(tried: seq<string>, todo: multiset<string>, candidates: seq<string>) {
    multiset(tried) + todo == multiset(candidates)
  }

  lemma NextShared(tried: seq<string>, todo: multiset<string>, candidates: seq<string>, hash: string)
    requires Shared(tried, todo, candidates) && hash in todo
    ensures Shared(tried + [hash], todo - multiset{hash}, candidates)
  {
  }

  lemma AllCounted(r: State, shaky: set<string>, tried: seq<string>, candidates: seq<string>, repaired: nat,
                   failed: nat)
    requires Counted(r, shaky, tried, repaired, failed) && multiset(tried) == multiset(candidates)
    ensures Counted(r, shaky, candidates, repaired, failed)
  {
    CountOfSame(tried, candidates, LiveTags(r));
    CountOfSame(tried, candidates, Failing(r, shaky));
    assert |multiset(tried)| == |tried| && |multiset(candidates)| == |candidates|;
  }

  /** What is restored is counted as repaired; what is skipped was out of reach and is counted as failed. */
  ghost predicate Tallied(shaky: set<string>, repaired: nat, failed: nat, fixed: set<string>,
    unreachable: set<string>) {
    && |fixed| <= repaired && (repaired > 0 ==> fixed != {})
    && |unreachable| <= failed && unreachable <= shaky
  }

  lemma NextTallied(shaky: set<string>, repaired: nat, failed: nat, fixed: set<string>, unreachable: set<string>,
    hash: string)
    requires Tallied(shaky, repaired, failed, fixed, unreachable)
    ensures Tallied(shaky, repaired + 1, failed, fixed + {hash}, unreachable - {hash})
    ensures Tallied(shaky, repaired, failed + 1, fixed, unreachable)
    ensures hash in shaky ==> Tallied(shaky, repaired, failed + 1, fixed, unreachable + {hash})
  {
    assert hash in fixed + {hash};
    assert |unreachable - {hash}| <= |unreachable|;
  }

  lemma RestoreOne(r: State, before: Entries, fixed: set<string>, hash: string, now: Time)
    requires HasLive(r, hash)
    ensures (before + Described(r, fixed, now))[hash := ItemFrom(r.manifests[hash], now)] ==
      before + Described(r, fixed + {hash}, now)
  {
    DescribedOneMore(r, fixed, hash, now);
    SetLater(before, Described(r, fixed, now), hash, ItemFrom(r.manifests[hash], now));
  }

  lemma DescribedOneMore(r: State, fixed: set<string>, hash: string, now: Time)
    requires HasLive(r, hash)
    ensures Described(r, fixed + {hash}, now) == Described(r, fixed, now)[hash := ItemFrom(r.manifests[hash], now)]
  {
  }

  lemma SetLater(before: Entries, added: Entries, hash: string, item: IndexItem)
    ensures (before + added)[hash := item] == before + added[hash := item]
  {
  }

  /** Where the workers stand. */
  ghost predicate Underway(r: State, shaky: set<string>, candidates: seq<string>, tried: seq<string>,
                           todo: multiset<string>, repaired: nat, failed: nat, fixed: set<string>,
                           unreachable: set<string>) {
    && (forall h | h in todo :: h in Listed(candidates)) && Shared(tried, todo, candidates)
    && Counted(r, shaky, tried, repaired, failed) && Tallied(shaky, repaired, failed, fixed, unreachable)
    && Progress(r, Listed(candidates), todo, fixed, unreachable)
    && forall h | h in fixed :: HasLive(r, h)
  }

  lemma NextUnderway(r: State, shaky: set<string>, candidates: seq<string>, tried: seq<string>,
                     todo: multiset<string>, repaired: nat, failed: nat, fixed: set<string>,
                     unreachable: set<string>, hash: string, done: bool, reached: bool)
    requires Underway(r, shaky, candidates, tried, todo, repaired, failed, fixed, unreachable) && hash in todo
    requires if done then HasLive(r, hash) else if reached then !HasLive(r, hash) else hash in shaky
    ensures var tried', todo' := tried + [hash], todo - multiset{hash};
      if done
      then Underway(r, shaky, candidates, tried', todo', repaired + 1, failed, fixed + {hash}, unreachable - {hash})
      else Underway(r, shaky, candidates, tried', todo', repaired, failed + 1, fixed,
        if reached || hash in fixed then unreachable else unreachable + {hash})
  {
    NextShared(tried, todo, candidates, hash);
    NextCounted(r, shaky, tried, repaired, failed, hash);
    NextTried(r, Listed(candidates), todo, fixed, unreachable, hash, done, reached);
    NextTallied(shaky, repaired, failed, fixed, unreachable, hash);
  }

  method RepairCandidate(registry: Registry, hash: string, index: CacheIndex, now: Time)
    returns (repaired: bool, reached: bool)
    requires IsNixHash(hash)
    modifies index
    ensures repaired ==>
      && HasLive(registry.state, hash)
      && index.entries == old(index.entries)[hash := ItemFrom(registry.state.manifests[hash], now)]
    ensures !repaired ==> index.entries == old(index.entries)
    ensures !repaired ==> if reached then !HasLive(registry.state, hash) else hash in registry.shaky
    ensures index.roots == old(index.roots)
  {
    var error := RepairIndexEntry(registry, hash, index, now);
    if hash in registry.state.manifests {
      EntryOfHash(registry.state, hash, now);
    }
    repaired, reached := error.None?, error != Some(Unreachable);
  }

  /** The concurrent workers: every candidate is tried, in any order.  What is skipped was out of reach and
      is counted as failed, and what is restored is counted as repaired. */
  method RepairAll(registry: Registry, candidates: seq<string>, index: CacheIndex, now: Time)
    returns (repaired: nat, failed: nat, ghost unreachable: set<string>, ghost fixed: set<string>)
    requires forall h | h in candidates :: IsNixHash(h)
    modifies index
    ensures Counted(registry.state, registry.shaky, candidates, repaired, failed)
    ensures Tallied(registry.shaky, repaired, failed, fixed, unreachable)
    ensures Progress(registry.state, Listed(candidates), multiset{}, fixed, unreachable)
    ensures forall h | h in fixed :: HasLive(registry.state, h)
    ensures index.entries == old(index.entries) + Described(registry.state, fixed, now)
    ensures index.roots == old(index.roots)
  {
    repaired, failed, unreachable, fixed := 0, 0, {}, {};
    ghost var r, shaky := registry.state, registry.shaky;
    var todo := multiset(candidates);
    ghost var tried: seq<string> := [];
    while todo != multiset{}
      invariant Underway(r, shaky, candidates, tried, todo, repaired, failed, fixed, unreachable)
      invariant index.entries == old(index.entries) + Described(r, fixed, now)
      invariant index.roots == old(index.roots)
    {
      var hash :| hash in todo;
      var done, reached := RepairCandidate(registry, hash, index, now);
      NextUnderway(r, shaky, candidates, tried, todo, repaired, failed, fixed, unreachable, hash, done, reached);
      todo, tried := todo - multiset{hash}, tried + [hash];
      if done {
        RestoreOne(r, old(index.entries), fixed, hash, now);
        repaired := repaired + 1;
        fixed, unreachable := fixed + {hash}, unreachable - {hash};
      } else {
        failed := failed + 1;
        if !reached && hash !in fixed {
          unreachable := unreachable + {hash};
        }
      }
    }
    AllCounted(r, shaky, tried, candidates, repaired, failed);
  }

  function RepairedIndex(r: State, skipped: set<string>, now: Time): Snapshot {
    Snapshot(RepairedEntries(r, skipped, now), CurrentIndex(r).roots)
  }

  function WithRepair(r: State, skipped: set<string>, now: Time): State {
    r.(pushes := r.pushes + [RepairedIndex(r, skipped, now)])
  }

  ghost function Everything(): iset<string> {
    iset h: string | |h| >= 0
  }

  ghost function LiveTags(r: State): iset<string> {
    iset h | HasLive(r, h)
  }

  /** What a repair may fail for: there is no live manifest, or the registry is shaky about it. */
  ghost function Failing(r: State, shaky: set<string>): iset<string> {
    iset h: string | !HasLive(r, h) || h in shaky
  }

  /** How many were restored, and how many at most were skipped.  Every tag that stands for an unlisted hash is
      counted, as repaired if there is a live manifest and as failed if there is none; when the registry is shaky
      about it, as the one or the other. */
  ghost predicate Counts(r: State, shaky: set<string>, unreachable: set<string>, repaired: nat, failed: nat) {
    && |AllMissing(r, unreachable)| <= repaired && (repaired > 0 ==> AllMissing(r, unreachable) != {})
    && |unreachable| <= failed && |Candidates(r)| <= repaired + failed == |StandIns(r, Everything())|
    && repaired <= |StandIns(r, LiveTags(r))| && failed <= |StandIns(r, Failing(r, shaky))|
  }

  /** Without trouble both counts are exact. */
  lemma CountsAreExact(r: State, unreachable: set<string>, repaired: nat, failed: nat)
    requires Counts(r, {}, unreachable, repaired, failed)
    ensures repaired == |StandIns(r, LiveTags(r))| && failed == |StandIns(r, Failing(r, {}))|
  {
    var live, dead := StandIns(r, LiveTags(r)), StandIns(r, Failing(r, {}));
    assert live + dead == StandIns(r, Everything()) && live !! dead;
  }

  /** What a repair of a registry leaves behind, `unreachable` being the paths whose manifests could not be
      had: paths the registry is shaky about, and no more of them than the command reports as failed. */
  ghost predicate IsRepair(r: State, r': State, shaky: set<string>, dryRun: bool, outcome: Outcome,
                           unreachable: set<string>, now: Time) {
    && unreachable <= shaky
    && match outcome
       case FetchIndexFailed => r' == r && INDEX_TAG in shaky
       case ListTagsFailed => r' == r && TAG_LIST in shaky
       case UpToDate => r' == r && Candidates(r) == {}
       case DryRun(missing) =>
         r' == r && dryRun && Listed(missing) == Candidates(r) != {} && |missing| == |StandIns(r, Everything())|
       case AllFailed(failed) => r' == r && !dryRun && Candidates(r) != {} && Counts(r, shaky, unreachable, 0, failed)
       case PushFailed =>
         && !dryRun && INDEX_TAG in shaky
         && (r' == r || (r' == WithRepair(r, unreachable, now) && AllMissing(r, unreachable) != {}))
       case Repaired(repaired, failed) =>
         && !dryRun && 0 < repaired && Counts(r, shaky, unreachable, repaired, failed)
         && r' == WithRepair(r, unreachable, now)
  }

  /** `tags` are all tags and `candidates` the unlisted hashes they stand for. */
  ghost predicate ListsCandidates(r: State, tags: seq<string>, candidates: seq<string>) {
    && (forall t :: t in tags <==> t in r.manifests) && EachOnce(tags)
    && candidates == StoodFor(tags, CurrentIndex(r).entries)
    && (forall h :: h in candidates <==> IsNixHash(h) && h !in CurrentIndex(r).entries && Names(tags, h))
  }

  lemma CandidatesAreHashes(r: State, tags: seq<string>, candidates: seq<string>)
    requires ListsCandidates(r, tags, candidates)
    ensures forall h | h in candidates :: IsNixHash(h)
  {
  }

  lemma TriedIsRepaired(r: State, tags: seq<string>, candidates: seq<string>, index: Snapshot, shaky: set<string>,
                        repaired: nat, failed: nat, fixed: set<string>, unreachable: set<string>, now: Time)
    requires ListsCandidates(r, tags, candidates) && candidates != []
    requires Counted(r, shaky, candidates, repaired, failed)
    requires Tallied(shaky, repaired, failed, fixed, unreachable)
    requires Progress(r, Listed(candidates), multiset{}, fixed, unreachable)
    requires forall h | h in fixed :: HasLive(r, h)
    requires index.entries == CurrentIndex(r).entries + Described(r, fixed, now) && index.roots == CurrentIndex(r).roots
    ensures Candidates(r) != {} && Counts(r, shaky, unreachable, repaired, failed) && unreachable <= shaky
    ensures index == RepairedIndex(r, unreachable, now)
  {
    CandidatesListed(r, tags, candidates);
    CandidatesCounted(r, tags, candidates, LiveTags(r));
    CandidatesCounted(r, tags, candidates, Failing(r, shaky));
    CandidatesCounted(r, tags, candidates, Everything());
    CountAll(candidates);
    assert candidates[0] in Candidates(r);
    AllTried(r, tags, candidates, fixed, unreachable);
  }

  lemma CandidatesCounted(r: State, tags: seq<string>, candidates: seq<string>, keys: iset<string>)
    requires ListsCandidates(r, tags, candidates)
    ensures CountIn(candidates, keys) == |StandIns(r, keys)|
  {
    CountStandIns(tags, CurrentIndex(r).entries, keys);
    assert Listed(tags) == r.manifests.Keys;
  }

  lemma {:induction false} CountAll(s: seq<string>)
    ensures CountIn(s, Everything()) == |s|
  {
    if s != [] {
      CountAll(s[..|s| - 1]);
    }
  }

  /** The loops' candidates are the tags' candidates, and trying them all restores all but the skipped. */
  lemma AllTried(r: State, tags: seq<string>, candidates: seq<string>, fixed: set<string>, unreachable: set<string>)
    requires ListsCandidates(r, tags, candidates)
    requires Progress(r, Listed(candidates), multiset{}, fixed, unreachable)
    requires forall h | h in fixed :: HasLive(r, h)
    ensures fixed == AllMissing(r, unreachable)
  {
    forall t | Missing(r, t) ensures t in fixed || t in unreachable {
      NixHashIsCanonical(t);
      MissingIsNamed(tags, t);
    }
    forall t ensures t in fixed <==> t in AllMissing(r, unreachable) {
    }
  }

  lemma MissingIsNamed(tags: seq<string>, t: string)
    requires t in tags && ToLower(t) == t
    ensures Names(tags, t)
  {
    var i :| 0 <= i < |tags| && tags[i] == t;
    assert ToLower(tags[i]) == t;
  }

  lemma CandidatesListed(r: State, tags: seq<string>, candidates: seq<string>)
    requires ListsCandidates(r, tags, candidates)
    ensures Listed(candidates) == Candidates(r) && |Candidates(r)| <= |candidates|
  {
    forall h ensures h in Candidates(r) <==> h in candidates {
      if h in candidates {
        var i :| 0 <= i < |tags| && ToLower(tags[i]) == h;
        assert tags[i] in r.manifests;
      }
      if h in Candidates(r) {
        var t :| t in r.manifests && ToLower(t) == h;
        var i :| 0 <= i < |tags| && tags[i] == t;
        assert ToLower(tags[i]) == h;
      }
    }
    NoMoreThanListed(candidates);
  }

  lemma {:induction false} NoMoreThanListed(s: seq<string>)
    ensures |Listed(s)| <= |s|
  {
    if s != [] {
      NoMoreThanListed(s[1..]);
      assert Listed(s) == {s[0]} + Listed(s[1..]);
    }
  }

  method RunRepair(registry: Registry, dryRun: bool, now: Time)
    returns (outcome: Outcome, ghost unreachable: set<string>)
    requires WellTagged(registry.state)
    modifies registry
    ensures IsRepair(old(registry.state), registry.state, registry.shaky, dryRun, outcome, unreachable, now)
  {
    unreachable := {};
    var fetched, index := registry.FetchIndex(now);
    if !fetched {
      return FetchIndexFailed, {};
    }
    var listed, tags := registry.ListTags();
    if !listed {
      return ListTagsFailed, {};
    }
    var candidates := CandidateHashes(tags, index.entries);
    assert ListsCandidates(registry.state, tags, candidates);
    CandidatesListed(registry.state, tags, candidates);
    if |candidates| == 0 {
      return UpToDate, {};
    }
    assert candidates[0] in Candidates(registry.state);
    CandidatesCounted(registry.state, tags, candidates, Everything());
    CountAll(candidates);
    if dryRun {
      return DryRun(candidates), {};
    }
    outcome, unreachable := RepairAndPush(registry, tags, candidates, index, now);
  }

  /** The part of the command that writes. */
  method RepairAndPush(registry: Registry, ghost tags: seq<string>, candidates: seq<string>, index: CacheIndex,
    now: Time)
    returns (outcome: Outcome, ghost unreachable: set<string>)
    requires ListsCandidates(registry.state, tags, candidates) && candidates != []
    requires index.View() == CurrentIndex(registry.state)
    modifies registry, index
    ensures IsRepair(old(registry.state), registry.state, registry.shaky, false, outcome, unreachable, now)
  {
    ghost var r := registry.state;
    var repaired, failed;
    repaired, failed, unreachable := RepairEvery(registry, tags, candidates, index, now);
    if repaired == 0 {
      return AllFailed(failed), unreachable;
    }
    outcome := PushRepaired(registry, index, repaired, failed, unreachable, now);
  }

  method PushRepaired(registry: Registry, index: CacheIndex, repaired: nat, failed: nat, ghost unreachable: set<string>,
    now: Time)
    returns (outcome: Outcome)
    requires unreachable <= registry.shaky && repaired > 0
    requires Counts(registry.state, registry.shaky, unreachable, repaired, failed)
    requires index.View() == RepairedIndex(registry.state, unreachable, now)
    modifies registry, index
    ensures IsRepair(old(registry.state), registry.state, registry.shaky, false, outcome, unreachable, now)
  {
    ghost var r, view := registry.state, index.View();
    var pushed := registry.PushIndex(index, now);
    outcome := if pushed then Repaired(repaired, failed) else PushFailed;
    PushIsRepair(r, registry.state, view, registry.shaky, outcome, repaired, failed, unreachable, now);
  }

  method RepairEvery(registry: Registry, ghost tags: seq<string>, candidates: seq<string>, index: CacheIndex, now: Time)
    returns (repaired: nat, failed: nat, ghost unreachable: set<string>)
    requires ListsCandidates(registry.state, tags, candidates) && candidates != []
    requires index.View() == CurrentIndex(registry.state)
    modifies index
    ensures Candidates(registry.state) != {} && unreachable <= registry.shaky
    ensures Counts(registry.state, registry.shaky, unreachable, repaired, failed)
    ensures index.View() == RepairedIndex(registry.state, unreachable, now)
  {
    ghost var fixed;
    CandidatesAreHashes(registry.state, tags, candidates);
    repaired, failed, unreachable, fixed := RepairAll(registry, candidates, index, now);
    TriedIsRepaired(registry.state, tags, candidates, index.View(), registry.shaky, repaired, failed, fixed,
      unreachable, now);
  }

  lemma PushIsRepair(r: State, r': State, index: Snapshot, shaky: set<string>, outcome: Outcome,
                     repaired: nat, failed: nat, unreachable: set<string>, now: Time)
    requires unreachable <= shaky && repaired > 0 && Counts(r, shaky, unreachable, repaired, failed)
    requires index == RepairedIndex(r, unreachable, now)
    requires r' == r.(pushes := r.pushes + [index]) || (r' == r && outcome.PushFailed?)
    requires outcome == Repaired(repaired, failed) || (outcome.PushFailed? && INDEX_TAG in shaky)
    ensures IsRepair(r, r', shaky, false, outcome, unreachable, now)
  {
  }

  // ----- what the command cannot repair -----

  /** After a repair, unless it skipped the path, a live manifest under a tag that is no lower-case hash is in
      the index exactly when there also is one under the lower-case form, which is the one looked up. */
  lemma UpperCaseRestoredIff(r: State, r': State, shaky: set<string>, outcome: Outcome, unreachable: set<string>,
                             t: string, now: Time)
    requires IsRepair(r, r', shaky, false, outcome, unreachable, now)
    requires outcome.UpToDate? || outcome.AllFailed? || outcome.Repaired?
    requires HasLive(r, t) && IsNixHash(ToLower(t)) && ToLower(t) !in CurrentIndex(r).entries
    requires ToLower(t) !in unreachable
    ensures ToLower(t) in CurrentIndex(r').entries <==> HasLive(r, ToLower(t))
  {
    UpperCaseIsCandidate(r, t);
    RestoredIff(r, r', shaky, outcome, unreachable, ToLower(t), now);
  }

  lemma UpperCaseIsCandidate(r: State, t: string)
    requires HasLive(r, t) && IsNixHash(ToLower(t)) && ToLower(t) !in CurrentIndex(r).entries
    ensures ToLower(t) in Candidates(r)
  {
  }

  lemma RestoredIff(r: State, r': State, shaky: set<string>, outcome: Outcome, unreachable: set<string>,
                    h: string, now: Time)
    requires IsRepair(r, r', shaky, false, outcome, unreachable, now)
    requires outcome.UpToDate? || outcome.AllFailed? || outcome.Repaired?
    requires h in Candidates(r) && h !in unreachable
    ensures h in CurrentIndex(r').entries <==> HasLive(r, h)
  {
    assert h in AllMissing(r, unreachable) <==> HasLive(r, h);
    if outcome.Repaired? {
      assert CurrentIndex(r') == Fetched(RepairedIndex(r, unreachable, now));
    }
  }

  const UPPER_CASE_TAG := "AAAAAAAAAAAAAAAAAAAAAAAAAAAAAAAA"

  /** A registry whose only manifest is live, under an upper-case tag. */
  function OnlyUpperCase(res: UploadResult): State {
    State({BareHex(res.digest)}, map[UPPER_CASE_TAG := ManifestOf(res)], [])
  }

  /** Its repair always fails, although every request is answered. */
  lemma UpperCaseTagStaysLost(res: UploadResult, r': State, outcome: Outcome, unreachable: set<string>, now: Time)
    requires ParseOciDigest(res.digest) == Some(res.digest)
    requires IsRepair(OnlyUpperCase(res), r', {}, false, outcome, unreachable, now)
    ensures HasLive(OnlyUpperCase(res), UPPER_CASE_TAG) && IsNixHash(ToLower(UPPER_CASE_TAG))
    ensures outcome.AllFailed? && r' == OnlyUpperCase(res)
  {
    var r, lower := OnlyUpperCase(res), ToLower(UPPER_CASE_TAG);
    UpperCaseStandsForHash();
    assert lower in Candidates(r);
    assert IsLive(ManifestOf(res));
    assert AllMissing(r, unreachable) == {};
  }

  lemma UpperCaseStandsForHash()
    ensures IsNixHash(ToLower(UPPER_CASE_TAG)) && !IsNixHash(UPPER_CASE_TAG)
  {
    var lower := ToLower(UPPER_CASE_TAG);
    assert NIX_ALPHABET[10] == 'a';
    forall i | 0 <= i < |lower| ensures lower[i] in NIX_ALPHABET {
      assert UPPER_CASE_TAG[i] == 'A';
    }
    assert UPPER_CASE_TAG[0] !in NIX_ALPHABET;
  }
}
