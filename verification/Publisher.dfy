/** Publishing a closure to one registry: diff against the index, upload what is missing, merge. */
module Publishers {
  import opened Wrappers
  import opened Text
  import opened StorePaths
  import opened CacheIndexes
  import opened NarInfos
  import opened NixBase32
  import opened Registries
  import opened Repairs

  datatype PathInfo = PathInfo(path: string, narHash: string, narSize: nat, signatures: seq<string>, refs: seq<string>)

  /** What exporting a path and compressing it yields, and then, if that works out, normalizing its hash and
      signing; there is no signature without a key. */
  datatype Export = Export(hex: Sha256, size: nat, certificate: Option<Certificate>)

  datatype Certificate = Certificate(narHash: string, signature: Option<string>)

  /** What the world outside the model does for a publisher: paths that cannot be exported are missing. */
  datatype Exporter = Exporter(compressor: Compressor, exports: map<string, Export>) {
    predicate Completes(path: string) {
      path in exports && exports[path].certificate.Some?
    }
  }

  /** A signature that is not ours. */
  predicate Foreign(sig: string, keyName: string) {
    keyName == "" || !HasPrefix(sig, keyName + ":")
  }

  predicate UpstreamCached(info: PathInfo, keyName: string) {
    exists i | 0 <= i < |info.signatures| :: Foreign(info.signatures[i], keyName)
  }

  /** The index lists the path, under the hash in its name or under that hash as the parser gives it. */
  predicate Filed(entries: Entries, path: string) {
    var hash := GetPathHash(path);
    hash in entries || (ParseNixHash(hash).Some? && ParseNixHash(hash).value in entries)
  }

  /** Nix writes hashes in lower case and without spaces, as the parser gives them. */
  predicate Canonical(info: PathInfo) {
    var hash := GetPathHash(info.path);
    ParseNixHash(hash).Some? ==> ParseNixHash(hash).value == hash
  }

  ghost predicate AllCanonical(infos: map<string, PathInfo>) {
    forall path | path in infos :: Canonical(infos[path])
  }

  ghost predicate IsCandidate(closure: seq<string>, infos: map<string, PathInfo>, skipUpstream: bool, keyName: string,
                              info: PathInfo) {
    && (exists path | path in closure :: path in infos && infos[path] == info)
    && !(skipUpstream && UpstreamCached(info, keyName))
  }

  // ----- repairs during the diff -----

  /** The manifest under one of `tags` describes the entry. */
  ghost predicate Recovered(r: State, tags: set<string>, hash: string, item: IndexItem, now: Time) {
    exists tag | tag in tags && tag in r.manifests :: EntryFrom(tag, r.manifests[tag], now) == Rebuilt(hash, item)
  }

  /** `entries` is the current index and what was rebuilt from the manifests under `tags`. */
  ghost predicate RepairOf(r: State, tags: set<string>, entries: Entries, now: Time) {
    && (forall h | h in CurrentIndex(r).entries :: h in entries)
    && forall h | h in entries ::
         || (h in CurrentIndex(r).entries && entries[h] == CurrentIndex(r).entries[h])
         || Recovered(r, tags, h, entries[h], now)
  }

  lemma RepairOneMore(r: State, tags: set<string>, entries: Entries, tag: string, now: Time)
    requires RepairOf(r, tags, entries, now) && tag in r.manifests && EntryFrom(tag, r.manifests[tag], now).Rebuilt?
    ensures var rebuilt := EntryFrom(tag, r.manifests[tag], now);
      RepairOf(r, tags + {tag}, entries[rebuilt.hash := rebuilt.item], now)
  {
    var rebuilt := EntryFrom(tag, r.manifests[tag], now);
    var entries' := entries[rebuilt.hash := rebuilt.item];
    forall h | h in entries'
      ensures (h in CurrentIndex(r).entries && entries'[h] == CurrentIndex(r).entries[h]) ||
        Recovered(r, tags + {tag}, h, entries'[h], now)
    {
      if h != rebuilt.hash && Recovered(r, tags, h, entries[h], now) {
        var t :| t in tags && t in r.manifests && EntryFrom(t, r.manifests[t], now) == Rebuilt(h, entries[h]);
        assert t in tags + {tag};
      }
    }
  }

  lemma RepairIsBacked(r: State, tags: set<string>, entries: Entries, now: Time)
    requires Sound(r) && RepairOf(r, tags, entries, now)
    requires forall t | t in tags && ParseNixHash(t).Some? :: ParseNixHash(t).value == t
    ensures AllBacked(r, entries)
  {
    forall h | h in entries ensures Backed(r, h, entries[h]) {
      if h in CurrentIndex(r).entries && entries[h] == CurrentIndex(r).entries[h] {
        assert Backed(r, h, CurrentIndex(r).entries[h]);
      } else {
        var t :| t in tags && t in r.manifests && EntryFrom(t, r.manifests[t], now) == Rebuilt(h, entries[h]);
        assert HasLive(r, t);
      }
    }
  }

  lemma RepairMoreTags(r: State, tags: set<string>, tags': set<string>, entries: Entries, now: Time)
    requires RepairOf(r, tags, entries, now) && tags <= tags'
    ensures RepairOf(r, tags', entries, now)
  {
    forall h | h in entries && Recovered(r, tags, h, entries[h], now)
      ensures Recovered(r, tags', h, entries[h], now) {
      var t :| t in tags && t in r.manifests && EntryFrom(t, r.manifests[t], now) == Rebuilt(h, entries[h]);
      assert t in tags';
    }
  }

  function PathHashes(infos: seq<PathInfo>): set<string> {
    set info | info in infos :: GetPathHash(info.path)
  }

  lemma PathHashesStep(infos: seq<PathInfo>, i: nat)
    requires i < |infos|
    ensures PathHashes(infos[..i + 1]) == PathHashes(infos[..i]) + {GetPathHash(infos[i].path)}
  {
    assert infos[..i + 1] == infos[..i] + [infos[i]];
  }

  lemma StillFiled(entries: Entries, entries': Entries, path: string)
    requires Filed(entries, path) && entries.Keys <= entries'.Keys
    ensures Filed(entries', path)
  {
  }

  /** Every probed path is in the index now or to be uploaded. */
  ghost predicate Settled(r: State, entries: Entries, probed: seq<PathInfo>, uploadList: seq<PathInfo>) {
    && (forall info | info in probed && info !in uploadList ::
      Filed(entries, info.path) && HasLive(r, GetPathHash(info.path)))
    && (forall info | info in uploadList :: info in probed)
  }

  lemma SettleOne(r: State, entries: Entries, entries': Entries, missing: seq<PathInfo>, i: nat,
                  uploadList: seq<PathInfo>)
    requires i < |missing| && entries.Keys <= entries'.Keys && Settled(r, entries, missing[..i], uploadList)
    ensures Settled(r, entries', missing[..i + 1], uploadList + [missing[i]])
    ensures Filed(entries', missing[i].path) && HasLive(r, GetPathHash(missing[i].path)) ==>
              Settled(r, entries', missing[..i + 1], uploadList)
  {
    assert missing[..i + 1] == missing[..i] + [missing[i]];
    forall info | info in missing[..i] && info !in uploadList ensures Filed(entries', info.path) {
      StillFiled(entries, entries', info.path);
    }
  }

  /** One of the paths at least is in the index. */
  ghost predicate SomeFiled(entries: Entries, infos: seq<PathInfo>) {
    exists info | info in infos :: Filed(entries, info.path)
  }

  lemma SomeFiledStep(entries: Entries, entries': Entries, infos: seq<PathInfo>, i: nat)
    requires i < |infos| && entries.Keys <= entries'.Keys
    ensures SomeFiled(entries, infos[..i]) || Filed(entries', infos[i].path) ==> SomeFiled(entries', infos[..i + 1])
  {
    assert infos[..i + 1] == infos[..i] + [infos[i]];
    if SomeFiled(entries, infos[..i]) {
      var info :| info in infos[..i] && Filed(entries, info.path);
      StillFiled(entries, entries', info.path);
    }
  }

  /** The registry has the path under the hash in its name, and an entry can be made of it. */
  predicate Recoverable(r: State, hash: string) {
    HasLive(r, hash) && ParseNixHash(hash).Some?
  }

  /** Nothing that could be recovered is uploaded again, unless the registry is shaky about it. */
  ghost predicate OnlyNew(r: State, shaky: set<string>, uploadList: seq<PathInfo>) {
    forall info | info in uploadList :: GetPathHash(info.path) in shaky || !Recoverable(r, GetPathHash(info.path))
  }

  lemma OnlyNewStep(r: State, shaky: set<string>, uploadList: seq<PathInfo>, info: PathInfo)
    requires OnlyNew(r, shaky, uploadList)
    requires GetPathHash(info.path) in shaky || !Recoverable(r, GetPathHash(info.path))
    ensures OnlyNew(r, shaky, uploadList + [info])
  {
  }

  lemma RecoverableIsRebuilt(r: State, hash: string, now: Time)
    requires hash in r.manifests
    ensures EntryFrom(hash, r.manifests[hash], now).Rebuilt? <==> Recoverable(r, hash)
  {
  }

  /** The hashes of candidates, as their paths spell them, that the index does not list. */
  ghost function Unlisted(r: State, closure: seq<string>, infos: map<string, PathInfo>, skipUpstream: bool,
                          keyName: string): set<string> {
    set path | path in infos && IsCandidate(closure, infos, skipUpstream, keyName, infos[path]) &&
      GetPathHash(infos[path].path) !in CurrentIndex(r).entries :: GetPathHash(infos[path].path)
  }

  /** What the diff stage must find: the index with some entries rebuilt from manifests, in which every
      candidate is filed unless it is to be uploaded; and nothing is uploaded that is indexed already. */
  ghost predicate IsDiff(r: State, closure: seq<string>, infos: map<string, PathInfo>, skipUpstream: bool,
                         keyName: string,
                         index: Snapshot, uploadList: seq<PathInfo>, now: Time) {
    && index.roots == CurrentIndex(r).roots
    && RepairOf(r, Unlisted(r, closure, infos, skipUpstream, keyName), index.entries, now)
    && (forall info | IsCandidate(closure, infos, skipUpstream, keyName, info) ::
      Filed(index.entries, info.path) || info in uploadList)
    && (forall info | IsCandidate(closure, infos, skipUpstream, keyName, info) &&
      GetPathHash(info.path) !in CurrentIndex(r).entries ::
          HasLive(r, GetPathHash(info.path)) || info in uploadList)
    && (forall info | info in uploadList ::
          IsCandidate(closure, infos, skipUpstream, keyName, info) &&
            GetPathHash(info.path) !in CurrentIndex(r).entries)
  }

  /** The current index, or what probing `missing` made of it, is what the diff must find. */
  lemma ProbedIsDiff(r: State, closure: seq<string>, infos: map<string, PathInfo>, skipUpstream: bool,
                     keyName: string, missing: seq<PathInfo>, index: Snapshot, uploadList: seq<PathInfo>, now: Time)
    requires forall info :: info in missing <==>
      IsCandidate(closure, infos, skipUpstream, keyName, info) && GetPathHash(info.path) !in CurrentIndex(r).entries
    requires RepairOf(r, PathHashes(missing), index.entries, now) && index.roots == CurrentIndex(r).roots
    requires Settled(r, index.entries, missing, uploadList)
    ensures IsDiff(r, closure, infos, skipUpstream, keyName, index, uploadList, now)
    ensures SomeFiled(index.entries, missing) ==> SomeRecovered(r, infos, index.entries)
  {
    forall info | info in missing ensures GetPathHash(info.path) in Unlisted(r, closure, infos, skipUpstream, keyName) {
    }
    RepairMoreTags(r, PathHashes(missing), Unlisted(r, closure, infos, skipUpstream, keyName), index.entries, now);
  }

  /** A path that the index did not list is there now. */
  ghost predicate SomeRecovered(r: State, infos: map<string, PathInfo>, entries: Entries) {
    exists path | path in infos ::
      GetPathHash(infos[path].path) !in CurrentIndex(r).entries && Filed(entries, infos[path].path)
  }

  // ----- the merge -----

  function Pushed(r: State, index: Snapshot): State {
    r.(pushes := r.pushes + [index])
  }

  /** The index entries with all results added, later ones over earlier ones. */
  function AddAll(entries: Entries, results: seq<UploadResult>, now: Time): Entries {
    if results == [] then entries
    else
      var last := results[|results| - 1];
      AddAll(entries, results[..|results| - 1], now)[last.hash := ItemOf(last, now)]
  }

  lemma {:induction false} AddAllKeys(entries: Entries, results: seq<UploadResult>, now: Time)
    ensures AddAll(entries, results, now).Keys == entries.Keys + set res | res in results :: res.hash
    ensures forall h | h in AddAll(entries, results, now) ::
      || (h in entries && AddAll(entries, results, now)[h] == entries[h])
      || exists res | res in results :: res.hash == h && AddAll(entries, results, now)[h] == ItemOf(res, now)
    decreases |results|
  {
    if results != [] {
      var front, last := results[..|results| - 1], results[|results| - 1];
      AddAllKeys(entries, front, now);
      assert results == front + [last];
      var before, after := AddAll(entries, front, now), AddAll(entries, results, now);
      forall h | h in after
        ensures (h in entries && after[h] == entries[h]) || exists res | res in results ::
          res.hash == h && after[h] == ItemOf(res, now)
      {
        if h == last.hash {
          assert last in results;
        } else if !(h in entries && before[h] == entries[h]) {
          var res :| res in front && res.hash == h && before[h] == ItemOf(res, now);
          assert res in results;
        }
      }
    }
  }

  /** What holds once a path has been uploaded. */
  ghost predicate Uploaded(r: State, info: PathInfo, res: UploadResult) {
    && ParseNixHash(GetPathHash(info.path)) == Some(res.hash)
    && res.name == GetPathName(info.path)
    && res.refs == info.refs
    && IsUploaded(r, res)
  }

  /** The result's archive is stored and its tag names a live manifest. */
  predicate IsUploaded(r: State, res: UploadResult) {
    HasLive(r, res.hash) && BareHex(res.digest) in r.blobs
  }

  lemma MergeIsBacked(r: State, entries: Entries, results: seq<UploadResult>, now: Time)
    requires AllBacked(r, entries) && forall res | res in results :: IsUploaded(r, res)
    ensures AllBacked(r, AddAll(entries, results, now))
  {
    AddAllKeys(entries, results, now);
    var merged := AddAll(entries, results, now);
    forall h | h in merged ensures Backed(r, h, merged[h]) {
      if h in entries && merged[h] == entries[h] {
        assert Backed(r, h, entries[h]);
      }
    }
  }

  /** The entry published for a path comes back from a fetch as it was, for the upgrade finds the same
      references in its narinfo text as it has in its list. */
  lemma PublishedEntryIsStable(f: PathFacts, res: UploadResult, now: Time)
    requires res.narInfo == NarInfoText(f) && res.refs == f.refs && WellFormed(f)
    ensures UpgradedItem(ItemOf(res, now)) == ItemOf(res, now)
    ensures ReferencesOfNarInfo(res.narInfo) == res.refs
  {
    ReferencesRoundTrip(f);
  }

  /** Fetching keeps what backs an entry. */
  lemma FetchedIsBacked(r: State, pushed: Snapshot)
    ensures AllBacked(r, pushed.entries) <==> AllBacked(r, Fetched(pushed).entries)
  {
    forall h | h in pushed.entries ensures Backed(r, h, pushed.entries[h]) == Backed(r, h, Fetched(pushed).entries[h]) {
    }
    if AllBacked(r, Fetched(pushed).entries) {
      forall h | h in pushed.entries ensures Backed(r, h, pushed.entries[h]) {
        assert Backed(r, h, Fetched(pushed).entries[h]);
      }
    }
  }

  // ----- uploads -----

  /** The facts that a narinfo text states are those of the path and its export. */
  ghost predicate Describes(f: PathFacts, info: PathInfo, e: Export, compressor: Compressor) {
    && e.certificate.Some?
    && f.storePath == info.path && f.narSize == info.narSize && f.refs == info.refs && f.compressor == compressor
    && f.narHash == e.certificate.value.narHash && f.fileSize == e.size
    && IsHex(e.hex) && f.fileHash == Encoded(HexBytes(e.hex))
    && f.sigs == match e.certificate.value.signature
                 case Some(signature) => info.signatures + [signature]
                 case None => info.signatures
  }

  lemma Sha256IsHex(hex: string)
    requires IsSha256Hex(hex)
    ensures IsHex(hex) && |hex| == 64
  {
    forall i | 0 <= i < |hex| ensures IsHexDigit(hex[i]) {
      var k :| 0 <= k < 16 && "0123456789abcdef"[k] == hex[i];
    }
  }

  /** The hash under which a path is filed; an unusable one is the empty string. */
  function HashKey(info: PathInfo): string {
    var hash := ParseNixHash(GetPathHash(info.path));
    if hash.Some? then hash.value else ""
  }

  /** The result of publishing a path says what the path's own facts and its export say. */
  ghost predicate DescribesUpload(info: PathInfo, exporter: Exporter, res: UploadResult) {
    && info.path in exporter.exports
    && res.hash == HashKey(info)
    && res.name == GetPathName(info.path) && res.refs == info.refs
    && ParseOciDigest(res.digest) == Some(res.digest)
    && BareHex(res.digest) == exporter.exports[info.path].hex && res.size == exporter.exports[info.path].size
    && exists f ::
         Describes(f, info, exporter.exports[info.path], exporter.compressor) && res.narInfo == NarInfoText(f)
  }

  lemma DescribedByFacts(info: PathInfo, f: PathFacts, exporter: Exporter, res: UploadResult)
    requires info.path in exporter.exports
    requires Describes(f, info, exporter.exports[info.path], exporter.compressor) && res.narInfo == NarInfoText(f)
    requires res.hash == HashKey(info) && res.name == GetPathName(info.path) && res.refs == info.refs
    requires ParseOciDigest(res.digest) == Some(res.digest)
    requires BareHex(res.digest) == exporter.exports[info.path].hex && res.size == exporter.exports[info.path].size
    ensures DescribesUpload(info, exporter, res)
  {
  }

  /** Every result is one of publishing a path of the list. */
  ghost predicate Stem(infos: seq<PathInfo>, exporter: Exporter, results: seq<UploadResult>) {
    forall res | res in results :: exists info | info in infos :: DescribesUpload(info, exporter, res)
  }

  lemma StemsOneMore(infos: seq<PathInfo>, exporter: Exporter, results: seq<UploadResult>, info: PathInfo,
                     res: UploadResult)
    requires Stem(infos, exporter, results) && info in infos && DescribesUpload(info, exporter, res)
    ensures Stem(infos, exporter, results + [res])
  {
  }

  /** A result that can be tagged. */
  predicate Publishable(res: UploadResult) {
    IsNixHash(res.hash) && ParseOciDigest(res.digest) == Some(res.digest)
  }

  /** The registry with some more archives. */
  function Stocked(r: State, hexes: set<string>): State {
    r.(blobs := r.blobs + hexes)
  }

  /** The registry with the result's archive and its manifest. */
  function Supplied(r: State, res: UploadResult): State {
    State(r.blobs + {BareHex(res.digest)}, r.manifests[res.hash := ManifestOf(res)], r.pushes)
  }

  function AllSupplied(r: State, results: seq<UploadResult>): State {
    if results == [] then r else Supplied(AllSupplied(r, results[..|results| - 1]), results[|results| - 1])
  }

  /** What uploading did to the registry: archive and manifest of every result, and the archive of one whose
      manifest was not to be stored. */
  ghost predicate UploadsTo(r: State, r': State, results: seq<UploadResult>, stored: set<string>) {
    && (forall res | res in results :: Publishable(res))
    && (forall hex | hex in stored :: IsSha256Hex(hex))
    && r' == Stocked(AllSupplied(r, results), stored)
  }

  lemma UploadsNothing(r: State)
    ensures UploadsTo(r, r, [], {})
  {
  }

  lemma UploadsOneMore(r: State, r1: State, results: seq<UploadResult>, res: UploadResult)
    requires UploadsTo(r, r1, results, {}) && Publishable(res)
    ensures UploadsTo(r, Supplied(r1, res), results + [res], {})
  {
    assert (results + [res])[..|results|] == results;
  }

  lemma UploadsArchives(r: State, r1: State, results: seq<UploadResult>, stored: set<string>)
    requires UploadsTo(r, r1, results, {}) && forall hex | hex in stored :: IsSha256Hex(hex)
    ensures UploadsTo(r, Stocked(r1, stored), results, stored)
  {
  }

  /** More archives and tags, the same index. */
  ghost predicate Grown(r: State, r': State) {
    Extends(r, r') && r'.pushes == r.pushes && (LayersStored(r) ==> LayersStored(r'))
  }

  lemma GrownReflexive(r: State)
    ensures Grown(r, r)
  {
  }

  lemma GrownTransitive(a: State, b: State, c: State)
    requires Grown(a, b) && Grown(b, c)
    ensures Grown(a, c)
  {
  }

  /** Pushing the manifest once the archive is stored. */
  lemma TagGrows(r: State, res: UploadResult)
    requires ParseOciDigest(res.digest) == Some(res.digest) && BareHex(res.digest) in r.blobs
    ensures var r' := r.(manifests := r.manifests[res.hash := ManifestOf(res)]);
      Grown(r, r) && Grown(r, r') && IsUploaded(r', res)
  {
    var r' := r.(manifests := r.manifests[res.hash := ManifestOf(res)]);
    assert IsLive(ManifestOf(res)) && LayerBlob(ManifestOf(res)) == BareHex(res.digest);
    forall t | HasLive(r', t) ensures t == res.hash || HasLive(r, t) {
    }
  }

  lemma EmptyIsNoTag(res: UploadResult, info: PathInfo)
    requires IsTag(res.hash)
    requires res.hash == HashKey(info)
    ensures ParseNixHash(GetPathHash(info.path)) == Some(res.hash)
  {
  }

  /** The result of publishing `info` stands, and says what it should. */
  ghost predicate Delivered(r: State, info: PathInfo, exporter: Exporter, res: UploadResult) {
    Uploaded(r, info, res) && DescribesUpload(info, exporter, res)
  }

  lemma StillDelivered(r: State, r': State, info: PathInfo, exporter: Exporter, res: UploadResult)
    requires Grown(r, r') && Delivered(r, info, exporter, res)
    ensures Delivered(r', info, exporter, res)
  {
  }

  /** One result for each path, in order, and all of them stand. */
  ghost predicate AllUploaded(r: State, infos: seq<PathInfo>, exporter: Exporter, results: seq<UploadResult>) {
    && |results| == |infos|
    && forall i | 0 <= i < |results| :: Delivered(r, infos[i], exporter, results[i])
  }

  lemma StillAllUploaded(r: State, r': State, infos: seq<PathInfo>, exporter: Exporter, results: seq<UploadResult>)
    requires Grown(r, r') && AllUploaded(r, infos, exporter, results)
    ensures AllUploaded(r', infos, exporter, results)
  {
    forall i | 0 <= i < |results| ensures Delivered(r', infos[i], exporter, results[i]) {
      StillDelivered(r, r', infos[i], exporter, results[i]);
    }
  }

  lemma OneMoreUploaded(r: State, infos: seq<PathInfo>, i: nat, exporter: Exporter, results: seq<UploadResult>,
                        res: UploadResult)
    requires i < |infos| && AllUploaded(r, infos[..i], exporter, results) && Delivered(r, infos[i], exporter, res)
    ensures AllUploaded(r, infos[..i + 1], exporter, results + [res])
  {
    var infos', results' := infos[..i + 1], results + [res];
    forall k | 0 <= k <= i ensures Delivered(r, infos'[k], exporter, results'[k]) {
      assert k < i ==> infos'[k] == infos[..i][k] && results'[k] == results[k];
    }
  }

  lemma ResultsStand(r: State, infos: seq<PathInfo>, exporter: Exporter, results: seq<UploadResult>)
    requires AllUploaded(r, infos, exporter, results)
    ensures forall res | res in results :: IsUploaded(r, res)
  {
    forall res | res in results ensures IsUploaded(r, res) {
      var i :| 0 <= i < |results| && results[i] == res;
      assert Delivered(r, infos[i], exporter, results[i]);
    }
  }

  function Merged(r: State, base: Snapshot, results: seq<UploadResult>, now: Time): State {
    Pushed(r, Snapshot(AddAll(base.entries, results, now), base.roots))
  }

  // ----- why a run may fail -----

  /** The registry is shaky about some blob. */
  predicate ShakyBlobs(shaky: set<string>) {
    exists hex | hex in shaky :: IsSha256Hex(hex)
  }

  /** A path whose publication may fail: its export does, its hash is none, or the registry is shaky about
      blobs or about its tag. */
  predicate Excused(shaky: set<string>, exporter: Exporter, info: PathInfo) {
    var hash := ParseNixHash(GetPathHash(info.path));
    !exporter.Completes(info.path) || ShakyBlobs(shaky) || hash.None? || hash.value in shaky
  }

  /** Only a shaky tag, or none, is refused. */
  lemma TagExcused(shaky: set<string>, exporter: Exporter, info: PathInfo, tag: string)
    requires tag == HashKey(info)
    requires IsTag(tag) ==> tag in shaky
    ensures Excused(shaky, exporter, info)
  {
    var hash := ParseNixHash(GetPathHash(info.path));
    if hash.Some? {
      NixHashIsTag(hash.value);
    }
  }

  lemma NixHashIsTag(s: string)
    requires IsNixHash(s)
    ensures IsTag(s)
  {
    NixHashIsCanonical(s);
  }

  // ----- what the stages keep, taken together -----

  predicate Serves(r: State, hash: string) {
    HasLive(r, hash) || (ParseNixHash(hash).Some? && HasLive(r, ParseNixHash(hash).value))
  }

  /** The path is in the index, and if it was not there before then its manifest is live. */
  predicate Published(r: State, r': State, info: PathInfo) {
    && Filed(CurrentIndex(r').entries, info.path)
    && (GetPathHash(info.path) in CurrentIndex(r).entries || Serves(r', GetPathHash(info.path)))
  }

  ghost predicate AllPublished(r: State, r': State, closure: seq<string>, infos: map<string, PathInfo>,
                               skipUpstream: bool, keyName: string) {
    forall info | IsCandidate(closure, infos, skipUpstream, keyName, info) :: Published(r, r', info)
  }

  /** Every entry stays in the index, every live tag live, and the roots are untouched. */
  ghost predicate KeepsIndex(r: State, r': State) {
    && CurrentIndex(r).entries.Keys <= CurrentIndex(r').entries.Keys
    && CurrentIndex(r').roots == CurrentIndex(r).roots
    && Extends(r, r')
  }

  lemma DiffKeeps(r: State, r': State, closure: seq<string>, infos: map<string, PathInfo>, skipUpstream: bool,
                  keyName: string, index: Snapshot, uploadList: seq<PathInfo>, now: Time)
    requires IsDiff(r, closure, infos, skipUpstream, keyName, index, uploadList, now)
    requires (r' == r && index == CurrentIndex(r)) || r' == Pushed(r, index)
    ensures KeepsIndex(r, r') && CurrentIndex(r').entries.Keys == index.entries.Keys
    ensures AllCanonical(infos) && Sound(r) ==> Sound(r')
  {
    if AllCanonical(infos) && Sound(r) {
      RepairIsBacked(r, Unlisted(r, closure, infos, skipUpstream, keyName), index.entries, now);
      RepairStaysSound(r, r', index);
    }
  }

  lemma RepairStaysSound(r: State, r': State, index: Snapshot)
    requires Sound(r) && AllBacked(r, index.entries)
    requires r' == r || r' == Pushed(r, index)
    ensures Sound(r')
  {
    if r' != r {
      assert AllBacked(r', index.entries);
      FetchedIsBacked(r', index);
    }
  }

  /** The current index with entries rebuilt for live manifests that it did not list. */
  ghost predicate IsRecovery(r: State, index: Snapshot, now: Time) {
    && index.roots == CurrentIndex(r).roots
    && CurrentIndex(r).entries.Keys <= index.entries.Keys
    && forall h | h in index.entries ::
         if h in CurrentIndex(r).entries then index.entries[h] == CurrentIndex(r).entries[h]
         else Missing(r, h) && index.entries[h] == ItemFrom(r.manifests[h], now)
  }

  lemma DiffIsRecovery(r: State, closure: seq<string>, infos: map<string, PathInfo>, skipUpstream: bool,
                       keyName: string, index: Snapshot, uploadList: seq<PathInfo>, now: Time)
    requires IsDiff(r, closure, infos, skipUpstream, keyName, index, uploadList, now) && AllCanonical(infos)
    ensures IsRecovery(r, index, now)
    ensures SomeRecovered(r, infos, index.entries) ==> index.entries.Keys != CurrentIndex(r).entries.Keys
  {
    var tags := Unlisted(r, closure, infos, skipUpstream, keyName);
    forall h | h in index.entries && Recovered(r, tags, h, index.entries[h], now)
      ensures Missing(r, h) && index.entries[h] == ItemFrom(r.manifests[h], now)
    {
      RecoveredIsMissing(r, tags, h, index.entries[h], now);
    }
  }

  lemma RecoveredIsMissing(r: State, tags: set<string>, h: string, item: IndexItem, now: Time)
    requires forall t | t in tags ::
      t !in CurrentIndex(r).entries && (ParseNixHash(t).Some? ==> ParseNixHash(t).value == t)
    requires Recovered(r, tags, h, item, now)
    ensures h in tags && Missing(r, h) && item == ItemFrom(r.manifests[h], now)
  {
    var tag :| tag in tags && tag in r.manifests && EntryFrom(tag, r.manifests[tag], now) == Rebuilt(h, item);
    assert tag == h;
  }

  lemma UploadKeeps(r: State, r': State)
    requires Grown(r, r')
    ensures KeepsIndex(r, r') && (Sound(r) ==> Sound(r'))
  {
    assert CurrentIndex(r') == CurrentIndex(r);
    if Sound(r) {
      BackedInExtension(r, r', CurrentIndex(r).entries);
    }
  }

  lemma MergeKeeps(r: State, r': State, results: seq<UploadResult>, now: Time)
    requires r' == Merged(r, CurrentIndex(r), results, now)
    requires forall res | res in results :: IsUploaded(r, res)
    ensures KeepsIndex(r, r') && (Sound(r) ==> Sound(r'))
    ensures forall res | res in results :: res.hash in CurrentIndex(r').entries
  {
    var merged := AddAll(CurrentIndex(r).entries, results, now);
    AddAllKeys(CurrentIndex(r).entries, results, now);
    if Sound(r) {
      MergeIsBacked(r, CurrentIndex(r).entries, results, now);
      assert AllBacked(r', merged);
      FetchedIsBacked(r', Snapshot(merged, CurrentIndex(r).roots));
    }
  }

  lemma UploadedIsPublished(r0: State, r: State, r': State, info: PathInfo, res: UploadResult)
    requires Uploaded(r, info, res) && Extends(r, r') && res.hash in CurrentIndex(r').entries
    ensures Published(r0, r', info)
  {
  }

  lemma FoundIsPublished(r0: State, r': State, entries: Entries, info: PathInfo)
    requires Filed(entries, info.path) && entries.Keys <= CurrentIndex(r').entries.Keys && Extends(r0, r')
    requires GetPathHash(info.path) in CurrentIndex(r0).entries || HasLive(r0, GetPathHash(info.path))
    ensures Published(r0, r', info)
  {
    StillFiled(entries, CurrentIndex(r').entries, info.path);
  }

  /** In the end every candidate is in the index: as before, recovered, or uploaded. */
  lemma PipelinePublishes(r0: State, r2: State, r': State, closure: seq<string>, infos: map<string, PathInfo>,
                          skipUpstream: bool, keyName: string, index: Snapshot, uploadList: seq<PathInfo>,
                          exporter: Exporter, results: seq<UploadResult>, now: Time)
    requires IsDiff(r0, closure, infos, skipUpstream, keyName, index, uploadList, now)
    requires Extends(r0, r2) && Extends(r2, r') && index.entries.Keys <= CurrentIndex(r').entries.Keys
    requires AllUploaded(r2, uploadList, exporter, results)
    requires forall res | res in results :: res.hash in CurrentIndex(r').entries
    ensures AllPublished(r0, r', closure, infos, skipUpstream, keyName)
  {
    forall info | IsCandidate(closure, infos, skipUpstream, keyName, info) ensures Published(r0, r', info) {
      if info in uploadList {
        var i :| 0 <= i < |uploadList| && uploadList[i] == info;
        assert results[i] in results && Delivered(r2, uploadList[i], exporter, results[i]);
        UploadedIsPublished(r0, r2, r', info, results[i]);
      } else {
        FoundIsPublished(r0, r', index.entries, info);
      }
    }
  }

  // ----- a run as a whole -----

  /** The registry after a diff that found `index`, which is pushed if something was recovered. */
  function Diffed(r: State, index: Snapshot): State {
    if index.entries.Keys == CurrentIndex(r).entries.Keys then r else Pushed(r, index)
  }

  /** A run that found `index`, uploaded `results` and no more than the archives `stored` besides, and then
      ended or merged the results. */
  ghost predicate IsRun(r: State, r': State, index: Snapshot, uploaded: State, results: seq<UploadResult>,
                        stored: set<string>, now: Time) {
    && IsRecovery(r, index, now)
    && UploadsTo(Diffed(r, index), uploaded, results, stored)
    && (r' == uploaded ||
        (results != [] && stored == {} && r' == Merged(uploaded, CurrentIndex(uploaded), results, now)))
  }

  /** All that a run does to a registry nobody else writes to, however it ends. */
  ghost predicate IsPublication(r: State, r': State, now: Time) {
    r' == r || exists index, uploaded, results, stored :: IsRun(r, r', index, uploaded, results, stored, now)
  }

  /** What a run goes through: the registry after the diff, which found `index` and `uploadList`; the registry after
      the uploads, the results tagged by then, and the archives stored besides. */
  datatype Course = Course(diffed: State, index: Snapshot, uploadList: seq<PathInfo>, uploaded: State,
    results: seq<UploadResult>, stored: set<string>)

  ghost predicate IsCourse(r: State, r': State, ok: bool, closure: seq<string>, infos: map<string, PathInfo>,
                           skipUpstream: bool, keyName: string, exporter: Exporter, c: Course, now: Time) {
    && IsDiff(r, closure, infos, skipUpstream, keyName, c.index, c.uploadList, now)
    && (if c.diffed == r then c.index == CurrentIndex(r)
        else c.diffed == Pushed(r, c.index) && SomeRecovered(r, infos, c.index.entries))
    && UploadsTo(c.diffed, c.uploaded, c.results, c.stored) && Stem(c.uploadList, exporter, c.results)
    && Grown(c.diffed, c.uploaded)
    && (r' == c.uploaded || Completed(r', exporter, c, now))
    && (ok ==> Completed(r', exporter, c, now) || (c.uploadList == [] && c.results == []))
  }

  /** Everything was uploaded and merged. */
  ghost predicate Completed(r': State, exporter: Exporter, c: Course, now: Time) {
    && c.results != [] && c.stored == {} && AllUploaded(c.uploaded, c.uploadList, exporter, c.results)
    && r' == Merged(c.uploaded, CurrentIndex(c.uploaded), c.results, now)
  }

  lemma CourseIsPublication(r: State, r': State, ok: bool, closure: seq<string>, infos: map<string, PathInfo>,
                            skipUpstream: bool, keyName: string, exporter: Exporter, c: Course, now: Time)
    requires IsCourse(r, r', ok, closure, infos, skipUpstream, keyName, exporter, c, now)
    ensures AllCanonical(infos) ==> IsPublication(r, r', now)
  {
    if AllCanonical(infos) {
      DiffIsRecovery(r, closure, infos, skipUpstream, keyName, c.index, c.uploadList, now);
      assert IsRun(r, r', c.index, c.uploaded, c.results, c.stored, now);
    }
  }

  /** However a run ends, the index keeps its entries and stays sound. */
  lemma CourseKeeps(r: State, r': State, ok: bool, closure: seq<string>, infos: map<string, PathInfo>,
                    skipUpstream: bool, keyName: string, exporter: Exporter, c: Course, now: Time)
    requires IsCourse(r, r', ok, closure, infos, skipUpstream, keyName, exporter, c, now)
    ensures KeepsIndex(r, r') && (AllCanonical(infos) && Sound(r) ==> Sound(r'))
    ensures c.index.entries.Keys <= CurrentIndex(r').entries.Keys && Extends(c.uploaded, r')
  {
    DiffKeeps(r, c.diffed, closure, infos, skipUpstream, keyName, c.index, c.uploadList, now);
    UploadKeeps(c.diffed, c.uploaded);
    if r' != c.uploaded {
      ResultsStand(c.uploaded, c.uploadList, exporter, c.results);
      MergeKeeps(c.uploaded, r', c.results, now);
    }
  }

  /** And when it ends well, every candidate is filed. */
  lemma CoursePublishes(r: State, r': State, closure: seq<string>, infos: map<string, PathInfo>, skipUpstream: bool,
                        keyName: string, exporter: Exporter, c: Course, now: Time)
    requires IsCourse(r, r', true, closure, infos, skipUpstream, keyName, exporter, c, now)
    ensures AllPublished(r, r', closure, infos, skipUpstream, keyName)
  {
    CourseKeeps(r, r', true, closure, infos, skipUpstream, keyName, exporter, c, now);
    if c.uploadList == [] {
      PipelinePublishes(r, r', r', closure, infos, skipUpstream, keyName, c.index, [], exporter, [], now);
    } else {
      ResultsStand(c.uploaded, c.uploadList, exporter, c.results);
      MergeKeeps(c.uploaded, r', c.results, now);
      PipelinePublishes(r, c.uploaded, r', closure, infos, skipUpstream, keyName, c.index, c.uploadList, exporter,
        c.results, now);
    }
  }

  // ----- the pipeline -----

  class Publisher {
    const keyName: string
    const skipUpstream: bool
    const exporter: Exporter

    constructor (keyName: string, skipUpstream: bool, exporter: Exporter)
      ensures this.keyName == keyName && this.skipUpstream == skipUpstream && this.exporter == exporter
    {
      this.keyName, this.skipUpstream, this.exporter := keyName, skipUpstream, exporter;
    }

    method IsUpstreamCached(info: PathInfo) returns (cached: bool)
      ensures cached <==> UpstreamCached(info, keyName)
    {
      if |info.signatures| == 0 {
        return false;
      }
      var myKeyPrefix := "";
      if keyName != "" {
        myKeyPrefix := keyName + ":";
      }
      for i := 0 to |info.signatures|
        invariant forall j | 0 <= j < i :: !Foreign(info.signatures[j], keyName)
      {
        if !(myKeyPrefix != "" && HasPrefix(info.signatures[i], myKeyPrefix)) {
          assert Foreign(info.signatures[i], keyName);
          return true;
        }
      }
      cached := false;
    }

    ghost predicate Candidate(closure: seq<string>, infos: map<string, PathInfo>, info: PathInfo) {
      IsCandidate(closure, infos, skipUpstream, keyName, info)
    }

    method CandidatePaths(closure: seq<string>, infos: map<string, PathInfo>) returns (candidates: seq<PathInfo>)
      ensures forall info :: info in candidates <==> Candidate(closure, infos, info)
    {
      candidates := [];
      for i := 0 to |closure|
        invariant forall info :: info in candidates <==> Candidate(closure[..i], infos, info)
      {
        assert closure[..i + 1] == closure[..i] + [closure[i]];
        ghost var before := candidates;
        if closure[i] in infos {
          var info := infos[closure[i]];
          var cached := false;
          if skipUpstream {
            cached := IsUpstreamCached(info);
          }
          if !cached {
            candidates := candidates + [info];
          }
        }
        forall info ensures info in candidates <==> Candidate(closure[..i + 1], infos, info) {
          assert Candidate(closure[..i], infos, info) ==> Candidate(closure[..i + 1], infos, info);
          assert Candidate(closure[..i + 1], infos, info) ==>
                 Candidate(closure[..i], infos, info) || (closure[i] in infos && info == infos[closure[i]]);
        }
      }
      assert closure[..|closure|] == closure;
    }

    method NotIndexed(candidates: seq<PathInfo>, entries: Entries) returns (missing: seq<PathInfo>)
      ensures forall info :: info in missing <==> info in candidates && GetPathHash(info.path) !in entries
    {
      missing := [];
      for i := 0 to |candidates|
        invariant forall info :: info in missing <==> info in candidates[..i] && GetPathHash(info.path) !in entries
      {
        assert candidates[..i + 1] == candidates[..i] + [candidates[i]];
        if GetPathHash(candidates[i].path) !in entries {
          missing := missing + [candidates[i]];
        }
      }
      assert candidates[..|candidates|] == candidates;
    }

    /** Whether the path, not in the index, is in the registry after all, in which case the index gets the
        entry its manifest describes. */
    method TryRepair(registry: Registry, info: PathInfo, index: CacheIndex, now: Time, ghost tags: set<string>)
      returns (repaired: bool)
      requires RepairOf(registry.state, tags, index.entries, now)
      modifies index
      ensures RepairOf(registry.state, tags + {GetPathHash(info.path)}, index.entries, now)
      ensures repaired ==> Filed(index.entries, info.path) && HasLive(registry.state, GetPathHash(info.path))
      ensures !repaired ==> index.entries == old(index.entries)
      ensures !repaired ==>
        GetPathHash(info.path) in registry.shaky || !Recoverable(registry.state, GetPathHash(info.path))
      ensures old(index.entries).Keys <= index.entries.Keys && index.roots == old(index.roots)
    {
      var hash := GetPathHash(info.path);
      var found := registry.ManifestExists(hash);
      if !found {
        RepairMoreTags(registry.state, tags, tags + {hash}, index.entries, now);
        return false;
      }
      ghost var before := index.entries;
      RecoverableIsRebuilt(registry.state, hash, now);
      var error := RepairIndexEntry(registry, hash, index, now);
      if error.None? {
        RepairOneMore(registry.state, tags, before, hash, now);
      } else {
        RepairMoreTags(registry.state, tags, tags + {hash}, index.entries, now);
      }
      repaired := error.None?;
    }

    /** Probing every missing path: what has to be uploaded, and the index with the rest. */
    method RepairStale(registry: Registry, missing: seq<PathInfo>, index: CacheIndex, now: Time)
      returns (uploadList: seq<PathInfo>, repairCount: nat)
      requires RepairOf(registry.state, {}, index.entries, now)
      modifies index
      ensures RepairOf(registry.state, PathHashes(missing), index.entries, now)
      ensures Settled(registry.state, index.entries, missing, uploadList)
      ensures OnlyNew(registry.state, registry.shaky, uploadList)
      ensures if repairCount == 0 then index.entries == old(index.entries) else SomeFiled(index.entries, missing)
      ensures index.roots == old(index.roots)
    {
      uploadList, repairCount := [], 0;
      ghost var r := registry.state;
      for i := 0 to |missing|
        invariant RepairOf(r, PathHashes(missing[..i]), index.entries, now)
        invariant Settled(r, index.entries, missing[..i], uploadList)
        invariant OnlyNew(r, registry.shaky, uploadList)
        invariant if repairCount == 0 then index.entries == old(index.entries)
                  else SomeFiled(index.entries, missing[..i])
        invariant index.roots == old(index.roots)
      {
        PathHashesStep(missing, i);
        ghost var before := index.entries;
        var repaired := TryRepair(registry, missing[i], index, now, PathHashes(missing[..i]));
        SettleOne(r, before, index.entries, missing, i, uploadList);
        SomeFiledStep(before, index.entries, missing, i);
        if repaired {
          repairCount := repairCount + 1;
        } else {
          OnlyNewStep(r, registry.shaky, uploadList, missing[i]);
          uploadList := uploadList + [missing[i]];
        }
      }
      assert missing[..|missing|] == missing;
    }

    method StageDiffIndex(registry: Registry, closure: seq<string>, infos: map<string, PathInfo>, now: Time)
      returns (ok: bool, index: CacheIndex, indexDigest: Option<nat>, uploadList: seq<PathInfo>)
      modifies registry
      ensures fresh(index)
      ensures registry.state == old(registry.state)
           || registry.state == Pushed(old(registry.state), index.View())
      ensures ok || registry.state != old(registry.state) ==>
        IsDiff(old(registry.state), closure, infos, skipUpstream, keyName, index.View(), uploadList, now)
      ensures ok && registry.state == old(registry.state) ==> index.View() == CurrentIndex(registry.state)
      ensures registry.state != old(registry.state) ==> SomeRecovered(old(registry.state), infos, index.View().entries)
      ensures indexDigest.Some? ==> indexDigest == IndexDigest(old(registry.state))
      ensures OnlyNew(old(registry.state), registry.shaky, uploadList)
      ensures !ok ==> INDEX_TAG in registry.shaky
    {
      uploadList := [];
      ok, index := registry.FetchIndex(now);
      if !ok {
        return false, index, None, [];
      }
      indexDigest := registry.HeadIndex();
      var repairCount;
      uploadList, repairCount := Probe(registry, closure, infos, index, now);
      if repairCount > 0 {
        ok := registry.PushIndex(index, now);
      }
    }

    /** The first and the second part of the diff stage, between fetching the index and pushing it. */
    method Probe(registry: Registry, closure: seq<string>, infos: map<string, PathInfo>, index: CacheIndex, now: Time)
      returns (uploadList: seq<PathInfo>, repairCount: nat)
      requires index.View() == CurrentIndex(registry.state)
      modifies index
      ensures IsDiff(registry.state, closure, infos, skipUpstream, keyName, index.View(), uploadList, now)
      ensures OnlyNew(registry.state, registry.shaky, uploadList)
      ensures if repairCount == 0 then index.View() == old(index.View())
              else SomeRecovered(registry.state, infos, index.View().entries)
    {
      uploadList, repairCount := [], 0;
      var candidates := CandidatePaths(closure, infos);
      var missing := NotIndexed(candidates, index.entries);
      if |missing| > 0 {
        uploadList, repairCount := RepairStale(registry, missing, index, now);
      }
      ProbedIsDiff(registry.state, closure, infos, skipUpstream, keyName, missing, index.View(), uploadList, now);
    }

    /** The facts about a path, put together once its archive is stored, and the result that states them. */
    method Describe(info: PathInfo, e: Export, cert: Certificate) returns (res: UploadResult)
      requires info.path in exporter.exports && e == exporter.exports[info.path] && e.certificate == Some(cert)
      ensures DescribesUpload(info, exporter, res)
    {
      var sigs := info.signatures;
      if cert.signature.Some? {
        sigs := sigs + [cert.signature.value];
      }
      Sha256IsHex(e.hex);
      var fileHash: string := e.hex;
      var b32 := HexToNixBase32(fileHash);
      if b32.Some? {
        fileHash := b32.value;
      }
      var facts := PathFacts(info.path, cert.narHash, info.narSize, fileHash, e.size, info.refs, sigs,
        exporter.compressor);
      var narInfo := GenerateNarInfo(facts);
      res := UploadResult(HashKey(info), GetPathName(info.path), narInfo, SHA256_PREFIX + e.hex, e.size, info.refs);
      DigestIsCanonical(e.hex);
      DescribedByFacts(info, facts, exporter, res);
    }

    /** Export, upload, sign and describe one path. */
    method PublishSingle(registry: Registry, info: PathInfo)
      returns (ok: bool, res: UploadResult, ghost stored: set<string>)
      modifies registry
      ensures registry.state == Stocked(old(registry.state), stored) && forall hex | hex in stored :: IsSha256Hex(hex)
      ensures ok ==> stored == {BareHex(res.digest)}
      ensures Grown(old(registry.state), registry.state) && registry.state.manifests == old(registry.state).manifests
      ensures ok ==> DescribesUpload(info, exporter, res) && BareHex(res.digest) in registry.state.blobs
      ensures !ok ==> !exporter.Completes(info.path) || ShakyBlobs(registry.shaky)
    {
      res, stored := UploadResult("", "", "", "", 0, []), {};
      if info.path !in exporter.exports {
        return false, res, {};
      }
      var e := exporter.exports[info.path];
      ghost var r := registry.state;
      ok := registry.UploadBlob(e.hex);
      stored := if registry.state == r then {} else {e.hex};
      if !ok {
        return;
      }
      if e.certificate.None? {
        return false, res, stored;
      }
      stored := {e.hex};
      res := Describe(info, e, e.certificate.value);
    }

    /** What one worker does: the archive first, then the manifest that names it. */
    method PublishAndTag(registry: Registry, info: PathInfo)
      returns (ok: bool, res: UploadResult, ghost tagged: bool, ghost stored: set<string>)
      modifies registry
      ensures Grown(old(registry.state), registry.state)
      ensures registry.state ==
        if tagged then Supplied(old(registry.state), res) else Stocked(old(registry.state), stored)
      ensures tagged ==> DescribesUpload(info, exporter, res)
      ensures if tagged then Publishable(res) else forall hex | hex in stored :: IsSha256Hex(hex)
      ensures ok ==> tagged && Delivered(registry.state, info, exporter, res)
      ensures !ok ==> Excused(registry.shaky, exporter, info)
    {
      tagged := false;
      ok, res, stored := PublishSingle(registry, info);
      if !ok {
        return;
      }
      ghost var r := registry.state;
      TagGrows(r, res);
      ok := registry.PushManifest(res.hash, ManifestOf(res));
      tagged := ok || registry.state != r;
      if tagged {
        EmptyIsNoTag(res, info);
      }
      if !ok {
        TagExcused(registry.shaky, exporter, info, res.hash);
      }
      GrownTransitive(old(registry.state), r, registry.state);
    }

    /** The workers finish in some order; the first failure stops the stage.  Whether or not it succeeds,
        `tagged` are the results whose manifests were stored, and `stored` is what else was. */
    method StageUpload(registry: Registry, uploadList: seq<PathInfo>)
      returns (ok: bool, results: seq<UploadResult>, ghost tagged: seq<UploadResult>, ghost stored: set<string>)
      modifies registry
      ensures Grown(old(registry.state), registry.state)
      ensures UploadsTo(old(registry.state), registry.state, tagged, stored) && Stem(uploadList, exporter, tagged)
      ensures ok ==> AllUploaded(registry.state, uploadList, exporter, results) && tagged == results && stored == {}
      ensures !ok ==> exists info | info in uploadList :: Excused(registry.shaky, exporter, info)
    {
      ok, results, tagged, stored := true, [], [], {};
      GrownReflexive(registry.state);
      UploadsNothing(registry.state);
      for i := 0 to |uploadList|
        invariant Grown(old(registry.state), registry.state) && tagged == results && stored == {}
        invariant UploadsTo(old(registry.state), registry.state, results, {}) && Stem(uploadList, exporter, results)
        invariant AllUploaded(registry.state, uploadList[..i], exporter, results)
      {
        var res;
        ghost var r, last, archives := registry.state, false, {};
        ok, res, last, archives := PublishAndTag(registry, uploadList[i]);
        GrownTransitive(old(registry.state), r, registry.state);
        if last {
          UploadsOneMore(old(registry.state), r, results, res);
          StemsOneMore(uploadList, exporter, results, uploadList[i], res);
          tagged := results + [res];
        } else {
          UploadsArchives(old(registry.state), r, results, archives);
          stored := archives;
        }
        if !ok {
          return;
        }
        StillAllUploaded(r, registry.state, uploadList[..i], exporter, results);
        OneMoreUploaded(registry.state, uploadList, i, exporter, results, res);
        results := results + [res];
      }
      assert uploadList[..|uploadList|] == uploadList;
    }

    /** The results are added to the index fetched first if its digest still is the remote one, and to a
        fresh copy otherwise. */
    method StageMergeIndex(registry: Registry, initialIndex: CacheIndex, initialDigest: Option<nat>,
                           results: seq<UploadResult>, now: Time)
      returns (ok: bool)
      modifies registry, initialIndex
      ensures results == [] ==> ok && registry.state == old(registry.state)
      ensures ok && results != [] ==> registry.state != old(registry.state)
      ensures !ok ==> INDEX_TAG in registry.shaky
      ensures var r := old(registry.state);
        || registry.state == r
        || (initialDigest.Some? && initialDigest == IndexDigest(r) &&
          registry.state == Merged(r, old(initialIndex.View()), results, now))
        || registry.state == Merged(r, CurrentIndex(r), results, now)
    {
      if |results| == 0 {
        return true;
      }
      var targetIndex := initialIndex;
      var currentDigest := registry.HeadIndex();
      var fast := currentDigest.Some? && currentDigest == initialDigest;
      if !fast {
        ok, targetIndex := registry.FetchIndex(now);
        if !ok {
          return;
        }
      }
      ghost var base := targetIndex.View();
      for i := 0 to |results|
        invariant (targetIndex == initialIndex || fresh(targetIndex)) && registry.state == old(registry.state)
        invariant targetIndex.entries == AddAll(base.entries, results[..i], now) && targetIndex.roots == base.roots
      {
        var res := results[i];
        assert results[..i + 1][..i] == results[..i];
        targetIndex.AddEntry(res.hash, res.name, res.narInfo, res.digest, res.size, res.refs, now);
      }
      assert results[..|results|] == results;
      ok := registry.PushIndex(targetIndex, now);
    }

    /** One run against a registry that nobody else writes to.  Whatever happens, nothing that was in the
        index is lost and nothing is promised that is not there; on success every candidate is filed. */
    method PublishToRegistry(registry: Registry, closure: seq<string>, infos: map<string, PathInfo>, now: Time)
      returns (ok: bool)
      modifies registry
      ensures KeepsIndex(old(registry.state), registry.state)
      ensures AllCanonical(infos) && Sound(old(registry.state)) ==>
        Sound(registry.state)
      ensures ok ==> AllPublished(old(registry.state), registry.state, closure, infos, skipUpstream, keyName)
      ensures AllCanonical(infos) ==> IsPublication(old(registry.state), registry.state, now)
      ensures (!ok && registry.state == old(registry.state)) || exists c ::
        IsCourse(old(registry.state), registry.state, ok, closure, infos, skipUpstream, keyName, exporter, c, now)
      ensures !ok ==>
        || INDEX_TAG in registry.shaky
        || exists info | Candidate(closure, infos, info) :: Excused(registry.shaky, exporter, info)
    {
      ghost var r := registry.state;
      ghost var c := Course(r, CurrentIndex(r), [], r, [], {});
      ok, c := RunStages(registry, closure, infos, now);
      if ok || registry.state != r {
        CourseKeeps(r, registry.state, ok, closure, infos, skipUpstream, keyName, exporter, c, now);
        CourseIsPublication(r, registry.state, ok, closure, infos, skipUpstream, keyName, exporter, c, now);
      }
      if ok {
        CoursePublishes(r, registry.state, closure, infos, skipUpstream, keyName, exporter, c, now);
      }
    }

    /** The stages of a run, one after the other. */
    method RunStages(registry: Registry, closure: seq<string>, infos: map<string, PathInfo>, now: Time)
      returns (ok: bool, ghost c: Course)
      modifies registry
      ensures (!ok && registry.state == old(registry.state)) ||
        IsCourse(old(registry.state), registry.state, ok, closure, infos, skipUpstream, keyName, exporter, c, now)
      ensures !ok ==>
        || INDEX_TAG in registry.shaky
        || exists info | Candidate(closure, infos, info) :: Excused(registry.shaky, exporter, info)
    {
      var index, indexDigest, uploadList;
      ok, index, indexDigest, uploadList := StageDiffIndex(registry, closure, infos, now);
      c := Course(registry.state, index.View(), uploadList, registry.state, [], {});
      UploadsNothing(registry.state);
      GrownReflexive(registry.state);
      if !ok || |uploadList| == 0 {
        return;
      }
      ghost var uploaded, results, stored;
      ok, uploaded, results, stored := UploadAndMerge(registry, index, indexDigest, uploadList, now);
      c := Course(c.diffed, c.index, uploadList, uploaded, results, stored);
    }

    /** The second half of a run; `uploaded` is the registry between its two stages. */
    method UploadAndMerge(registry: Registry, index: CacheIndex, indexDigest: Option<nat>, uploadList: seq<PathInfo>,
                          now: Time)
      returns (ok: bool, ghost uploaded: State, ghost results: seq<UploadResult>, ghost stored: set<string>)
      requires uploadList != []
      requires indexDigest.Some? && indexDigest == IndexDigest(registry.state) ==>
        index.View() == CurrentIndex(registry.state)
      modifies registry, index
      ensures Grown(old(registry.state), uploaded)
      ensures UploadsTo(old(registry.state), uploaded, results, stored) && Stem(uploadList, exporter, results)
      ensures registry.state == uploaded
           || (AllUploaded(uploaded, uploadList, exporter, results) && stored == {} &&
             registry.state == Merged(uploaded, CurrentIndex(uploaded), results, now))
      ensures ok ==> registry.state != uploaded
      ensures !ok ==>
        INDEX_TAG in registry.shaky || exists info | info in uploadList :: Excused(registry.shaky, exporter, info)
    {
      var list;
      ok, list, results, stored := StageUpload(registry, uploadList);
      uploaded := registry.state;
      if !ok {
        return;
      }
      assert CurrentIndex(uploaded) == CurrentIndex(old(registry.state)) &&
        IndexDigest(uploaded) == IndexDigest(old(registry.state));
      ok := StageMergeIndex(registry, index, indexDigest, list, now);
    }
  }
}
