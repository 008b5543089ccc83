/** What publishing and repairing put into the index, said of the manifests and the exports themselves: the sizes,
    names and times of the new entries, and what that means for the sizes a sweep goes by. */
module PublishReadings {
  import opened Wrappers
  import opened Text
  import opened StorePaths
  import opened CacheIndexes
  import opened NixBase32
  import opened NarInfos
  import opened GcSpec
  import opened Registries
  import opened Repairs
  import opened Publishers

  // ----- entries and manifests -----

  /** The entry says of its archive what the manifest says, and all its times are `now`. */
  predicate TrueTo(m: Manifest, item: IndexItem, now: Time) {
    && m.annotations.Some? && m.layers != []
    && item.narSize == m.layers[0].size
    && ParseOciDigest(m.layers[0].digest) == Some("sha256:" + item.narDigest)
    && item.name == Annotation(m.annotations.value, "org.nix.name")
    && item.narInfo == Annotation(m.annotations.value, "org.nix.narinfo")
    && item.added == now && item.lastUsed == now && item.uploadedAt == now
  }

  lemma RebuiltIsTrue(m: Manifest, now: Time)
    requires IsLive(m)
    ensures TrueTo(m, ItemFrom(m, now), now)
  {
    var digest := ParseOciDigest(m.layers[0].digest).value;
    assert digest == SHA256_PREFIX + BareHex(digest);
  }

  lemma UploadIsTrue(res: UploadResult, now: Time)
    requires Publishable(res)
    ensures TrueTo(ManifestOf(res), ItemOf(res, now), now)
  {
    assert res.digest == SHA256_PREFIX + BareHex(res.digest);
  }

  /** Fetching the index upgrades an entry once more, which may find references but changes nothing else. */
  lemma StaysTrue(m: Manifest, item: IndexItem, now: Time)
    requires TrueTo(m, item, now)
    ensures TrueTo(m, UpgradedItem(item), now)
  {
  }

  /** Every entry that was listed before is there as it was, and every new one is true to the manifest under its
      hash. */
  ghost predicate GrowsTruly(r: State, r': State, now: Time) {
    && (forall h | h in CurrentIndex(r).entries ::
          h in CurrentIndex(r').entries && CurrentIndex(r').entries[h] == CurrentIndex(r).entries[h])
    && (forall h | h in CurrentIndex(r').entries && h !in CurrentIndex(r).entries ::
          h in r'.manifests && TrueTo(r'.manifests[h], CurrentIndex(r').entries[h], now))
  }

  lemma CurrentIsUpgraded(r: State, h: string)
    requires h in CurrentIndex(r).entries
    ensures UpgradedItem(CurrentIndex(r).entries[h]) == CurrentIndex(r).entries[h]
  {
  }

  lemma RecoveryGrowsTruly(r: State, index: Snapshot, now: Time)
    requires IsRecovery(r, index, now)
    ensures GrowsTruly(r, Pushed(r, index), now)
  {
    forall h | h in CurrentIndex(r).entries
      ensures CurrentIndex(Pushed(r, index)).entries[h] == CurrentIndex(r).entries[h]
    {
      CurrentIsUpgraded(r, h);
    }
    forall h | h in index.entries && h !in CurrentIndex(r).entries
      ensures h in r.manifests && TrueTo(r.manifests[h], UpgradedItem(index.entries[h]), now)
    {
      RebuiltIsTrue(r.manifests[h], now);
      StaysTrue(r.manifests[h], index.entries[h], now);
    }
  }

  // ----- repairing -----

  /** After a repair that has pushed. */
  lemma RepairGrowsTruly(r: State, r': State, shaky: set<string>, dryRun: bool, outcome: Repairs.Outcome,
                         unreachable: set<string>, now: Time)
    requires IsRepair(r, r', shaky, dryRun, outcome, unreachable, now)
    ensures GrowsTruly(r, r', now)
  {
    if r' != r {
      var index := RepairedIndex(r, unreachable, now);
      assert IsRecovery(r, index, now);
      RecoveryGrowsTruly(r, index, now);
    }
  }

  // ----- publishing -----

  /** Of several results with one hash the last decides, in the registry as in the index. */
  lemma {:induction false} LastDecides(r: State, entries: Entries, results: seq<UploadResult>, h: string, now: Time)
    returns (last: Option<UploadResult>)
    ensures last.None? ==>
      && (forall res | res in results :: res.hash != h)
      && (h in AllSupplied(r, results).manifests <==> h in r.manifests)
      && (h in r.manifests ==> AllSupplied(r, results).manifests[h] == r.manifests[h])
      && (h in AddAll(entries, results, now) <==> h in entries)
      && (h in entries ==> AddAll(entries, results, now)[h] == entries[h])
    ensures last.Some? ==>
      && last.value in results && last.value.hash == h
      && h in AllSupplied(r, results).manifests && AllSupplied(r, results).manifests[h] == ManifestOf(last.value)
      && h in AddAll(entries, results, now) && AddAll(entries, results, now)[h] == ItemOf(last.value, now)
    decreases |results|
  {
    if results == [] {
      return None;
    }
    var front, res := results[..|results| - 1], results[|results| - 1];
    assert results == front + [res];
    last := LastDecides(r, entries, front, h, now);
    if res.hash == h {
      last := Some(res);
    }
  }

  /** The result is that of publishing a candidate whose hash the index did not list. */
  ghost predicate IsNew(r: State, closure: seq<string>, infos: map<string, PathInfo>, skipUpstream: bool,
                        keyName: string, exporter: Exporter, res: UploadResult) {
    && Publishable(res) && res.hash !in CurrentIndex(r).entries
    && exists info :: IsCandidate(closure, infos, skipUpstream, keyName, info) &&
         GetPathHash(info.path) == res.hash && DescribesUpload(info, exporter, res)
  }

  lemma ResultsAreNew(r: State, r': State, ok: bool, closure: seq<string>, infos: map<string, PathInfo>,
                      skipUpstream: bool, keyName: string, exporter: Exporter, c: Course, now: Time)
    requires IsCourse(r, r', ok, closure, infos, skipUpstream, keyName, exporter, c, now) && AllCanonical(infos)
    ensures forall res | res in c.results :: IsNew(r, closure, infos, skipUpstream, keyName, exporter, res)
  {
    forall res | res in c.results ensures IsNew(r, closure, infos, skipUpstream, keyName, exporter, res) {
      var info :| info in c.uploadList && DescribesUpload(info, exporter, res);
      assert Canonical(info) && GetPathHash(info.path) == res.hash;
    }
  }

  lemma DiffGrowsTruly(r: State, r': State, ok: bool, closure: seq<string>, infos: map<string, PathInfo>,
                       skipUpstream: bool, keyName: string, exporter: Exporter, c: Course, now: Time)
    requires IsCourse(r, r', ok, closure, infos, skipUpstream, keyName, exporter, c, now) && AllCanonical(infos)
    ensures GrowsTruly(r, c.diffed, now) && CurrentIndex(c.uploaded) == CurrentIndex(c.diffed)
    ensures c.diffed.manifests == r.manifests
  {
    if c.diffed != r {
      DiffIsRecovery(r, closure, infos, skipUpstream, keyName, c.index, c.uploadList, now);
      RecoveryGrowsTruly(r, c.index, now);
    }
  }

  /** A run that ends well adds to the index only entries that are true to the manifests it leaves. */
  lemma PublishGrowsTruly(r: State, r': State, closure: seq<string>, infos: map<string, PathInfo>,
                          skipUpstream: bool, keyName: string, exporter: Exporter, c: Course, now: Time)
    requires IsCourse(r, r', true, closure, infos, skipUpstream, keyName, exporter, c, now) && AllCanonical(infos)
    ensures GrowsTruly(r, r', now)
  {
    DiffGrowsTruly(r, r', true, closure, infos, skipUpstream, keyName, exporter, c, now);
    ResultsAreNew(r, r', true, closure, infos, skipUpstream, keyName, exporter, c, now);
    if Completed(r', exporter, c, now) {
      MergeGrowsTruly(r, c.diffed, c.uploaded, c.results, now);
    } else {
      assert c.uploaded.manifests == c.diffed.manifests;
    }
  }

  lemma MergeGrowsTruly(r: State, diffed: State, uploaded: State, results: seq<UploadResult>, now: Time)
    requires GrowsTruly(r, diffed, now) && diffed.manifests == r.manifests
    requires UploadsTo(diffed, uploaded, results, {}) && CurrentIndex(uploaded) == CurrentIndex(diffed)
    requires forall res | res in results :: res.hash !in CurrentIndex(r).entries
    ensures GrowsTruly(r, Merged(uploaded, CurrentIndex(uploaded), results, now), now)
  {
    var r' := Merged(uploaded, CurrentIndex(uploaded), results, now);
    var base, merged := CurrentIndex(diffed).entries, AddAll(CurrentIndex(diffed).entries, results, now);
    assert CurrentIndex(r').entries == UpgradedEntries(merged);
    forall h | h in CurrentIndex(r').entries && h !in CurrentIndex(r).entries
      ensures h in r'.manifests && TrueTo(r'.manifests[h], CurrentIndex(r').entries[h], now)
    {
      NewEntryIsTrue(r, diffed, results, h, now);
    }
    forall h | h in CurrentIndex(r).entries
      ensures h in merged && UpgradedItem(merged[h]) == CurrentIndex(r).entries[h]
    {
      var last := LastDecides(diffed, base, results, h, now);
      CurrentIsUpgraded(r, h);
    }
  }

  lemma NewEntryIsTrue(r: State, diffed: State, results: seq<UploadResult>, h: string, now: Time)
    requires GrowsTruly(r, diffed, now) && forall res | res in results :: Publishable(res)
    requires h in AddAll(CurrentIndex(diffed).entries, results, now) && h !in CurrentIndex(r).entries
    ensures var merged := AddAll(CurrentIndex(diffed).entries, results, now);
      var manifests := AllSupplied(diffed, results).manifests;
      h in manifests && TrueTo(manifests[h], UpgradedItem(merged[h]), now)
  {
    var base := CurrentIndex(diffed).entries;
    var last := LastDecides(diffed, base, results, h, now);
    if last.Some? {
      UploadIsTrue(last.value, now);
      StaysTrue(ManifestOf(last.value), ItemOf(last.value, now), now);
    } else {
      StaysTrue(diffed.manifests[h], base[h], now);
    }
  }

  /** And one that breaks off leaves only entries true to the manifests that were there before. */
  lemma BrokenRunGrowsTruly(r: State, r': State, closure: seq<string>, infos: map<string, PathInfo>,
                            skipUpstream: bool, keyName: string, exporter: Exporter, c: Course, now: Time)
    requires IsCourse(r, r', false, closure, infos, skipUpstream, keyName, exporter, c, now) && AllCanonical(infos)
    ensures GrowsTruly(r, r', now) || GrowsTruly(r, r'.(manifests := r.manifests), now)
  {
    DiffGrowsTruly(r, r', false, closure, infos, skipUpstream, keyName, exporter, c, now);
    if Completed(r', exporter, c, now) {
      PublishGrowsTruly(r, r', closure, infos, skipUpstream, keyName, exporter, c, now);
    } else {
      SameIndexGrows(r, c.diffed, r'.(manifests := r.manifests), now);
    }
  }

  lemma SameIndexGrows(r: State, diffed: State, r': State, now: Time)
    requires GrowsTruly(r, diffed, now) && diffed.manifests == r'.manifests
    requires CurrentIndex(r') == CurrentIndex(diffed)
    ensures GrowsTruly(r, r', now)
  {
  }

  // ----- the entry of one path -----

  /** The publisher takes the path: it is in the closure, has its information, and when others' caches are left to
      them every signature is our own. */
  ghost predicate Wanted(closure: seq<string>, infos: map<string, PathInfo>, skipUpstream: bool, keyName: string,
                         info: PathInfo) {
    && info.path in closure && info.path in infos && infos[info.path] == info
    && (skipUpstream ==> forall sig | sig in info.signatures :: keyName != "" && keyName + ":" <= sig)
  }

  lemma WantedIsCandidate(closure: seq<string>, infos: map<string, PathInfo>, skipUpstream: bool, keyName: string,
                          info: PathInfo)
    requires Wanted(closure, infos, skipUpstream, keyName, info)
    ensures IsCandidate(closure, infos, skipUpstream, keyName, info)
  {
    forall i | 0 <= i < |info.signatures| && skipUpstream ensures !Foreign(info.signatures[i], keyName) {
      assert info.signatures[i] in info.signatures;
    }
  }

  lemma CandidateIsWanted(closure: seq<string>, infos: map<string, PathInfo>, skipUpstream: bool, keyName: string,
                          info: PathInfo)
    requires IsCandidate(closure, infos, skipUpstream, keyName, info) && forall p | p in infos :: infos[p].path == p
    ensures Wanted(closure, infos, skipUpstream, keyName, info)
  {
    forall sig | skipUpstream && sig in info.signatures ensures keyName != "" && keyName + ":" <= sig {
      var i :| 0 <= i < |info.signatures| && info.signatures[i] == sig;
      assert !Foreign(info.signatures[i], keyName);
    }
  }

  /** The entry says what the path's information and its export say. */
  ghost predicate SaysOf(item: IndexItem, info: PathInfo, exporter: Exporter, now: Time) {
    && exporter.Completes(info.path)
    && item.narDigest == exporter.exports[info.path].hex && item.narSize == exporter.exports[info.path].size
    && item.name == GetPathName(info.path)
    && item.added == now && item.lastUsed == now && item.uploadedAt == now
    && exists f :: Describes(f, info, exporter.exports[info.path], exporter.compressor) &&
         item.narInfo == NarInfoText(f) && (NarInfos.WellFormed(f) ==> item.references == info.refs)
  }

  lemma ItemSays(info: PathInfo, exporter: Exporter, res: UploadResult, now: Time)
    requires DescribesUpload(info, exporter, res)
    ensures SaysOf(UpgradedItem(ItemOf(res, now)), info, exporter, now)
  {
    var f :| Describes(f, info, exporter.exports[info.path], exporter.compressor) && res.narInfo == NarInfoText(f);
    if NarInfos.WellFormed(f) {
      PublishedEntryIsStable(f, res, now);
    }
  }

  /** No field holds a line break and the references are store paths. */
  predicate Presentable(info: PathInfo, e: Export) {
    && e.certificate.Some? && OneLine(info.path) && OneLine(e.certificate.value.narHash)
    && (forall i | 0 <= i < |info.refs| :: StoreReference(info.refs[i]))
    && (forall i | 0 <= i < |info.signatures| :: OneLine(info.signatures[i]))
    && (e.certificate.value.signature.Some? ==> OneLine(e.certificate.value.signature.value))
  }

  lemma {:induction false} NumeralOneLine(v: nat, l: nat)
    ensures OneLine(Numeral(v, l))
  {
    if l > 0 {
      NumeralOneLine(v / 32, l - 1);
      AlphabetIs('\n');
    }
  }

  lemma FactsWellFormed(f: PathFacts, info: PathInfo, e: Export, compressor: Compressor)
    requires Describes(f, info, e, compressor) && Presentable(info, e)
    ensures NarInfos.WellFormed(f)
  {
    NumeralOneLine(LittleEndian(HexBytes(e.hex)), EncodedLength(|HexBytes(e.hex)|));
  }

  /** The text gives the path, its hash and size, and the size of the archive. */
  ghost predicate TellsSizes(text: string, info: PathInfo, narHash: string, fileSize: nat) {
    var lines := Split(text, {'\n'});
    && Field(lines, "StorePath: ") == Some(info.path) && Field(lines, "NarHash: ") == Some(narHash)
    && Field(lines, "NarSize: ").Some? && Value(Field(lines, "NarSize: ").value) == info.narSize
    && Field(lines, "FileSize: ").Some? && Value(Field(lines, "FileSize: ").value) == fileSize
  }

  /** The hash it gives of the archive stands for these bytes. */
  ghost predicate TellsArchive(text: string, bytes: seq<bv8>) {
    var fileHash := Field(Split(text, {'\n'}), "FileHash: sha256:");
    fileHash.Some? && Decoded(fileHash.value, |bytes|) == bytes
  }

  /** It bears the signatures the path had, and then ours. */
  ghost predicate TellsSignatures(text: string, info: PathInfo, ours: Option<string>) {
    AllFields(Split(text, {'\n'}), "Sig: ") == info.signatures + if ours.Some? then [ours.value] else []
  }

  lemma FactsTellSizes(f: PathFacts, info: PathInfo, e: Export, compressor: Compressor)
    requires Describes(f, info, e, compressor) && NarInfos.WellFormed(f)
    ensures TellsSizes(NarInfoText(f), info, e.certificate.value.narHash, e.size)
  {
    FieldsRoundTrip(f);
  }

  lemma FactsTellArchive(f: PathFacts, bytes: seq<bv8>)
    requires f.fileHash == Encoded(bytes) && NarInfos.WellFormed(f)
    ensures TellsArchive(NarInfoText(f), bytes)
  {
    FieldsRoundTrip(f);
    DecodedEncoded(bytes);
  }

  lemma FactsTellSignatures(f: PathFacts, info: PathInfo, e: Export, compressor: Compressor)
    requires Describes(f, info, e, compressor) && NarInfos.WellFormed(f)
    ensures TellsSignatures(NarInfoText(f), info, e.certificate.value.signature)
  {
    SignaturesRoundTrip(f);
  }

  /** Read back, the narinfo text of a published entry gives the path, the hashes, the sizes and the signatures of the
      path and of its export. */
  lemma EntryTells(item: IndexItem, info: PathInfo, exporter: Exporter, now: Time)
    requires SaysOf(item, info, exporter, now) && Presentable(info, exporter.exports[info.path])
    ensures var e := exporter.exports[info.path];
      && TellsSizes(item.narInfo, info, e.certificate.value.narHash, item.narSize)
      && IsHex(item.narDigest) && TellsArchive(item.narInfo, HexBytes(item.narDigest))
      && TellsSignatures(item.narInfo, info, e.certificate.value.signature)
    ensures item.references == info.refs
  {
    var e := exporter.exports[info.path];
    var f :| Describes(f, info, e, exporter.compressor) &&
      item.narInfo == NarInfoText(f) && (NarInfos.WellFormed(f) ==> item.references == info.refs);
    FactsWellFormed(f, info, e, exporter.compressor);
    FactsTellSizes(f, info, e, exporter.compressor);
    FactsTellArchive(f, HexBytes(e.hex));
    FactsTellSignatures(f, info, e, exporter.compressor);
  }

  /** No other wanted path has the hash. */
  ghost predicate OnlyOne(closure: seq<string>, infos: map<string, PathInfo>, skipUpstream: bool, keyName: string,
                          info: PathInfo, h: string) {
    && (forall p | p in infos :: infos[p].path == p)
    && Wanted(closure, infos, skipUpstream, keyName, info)
    && forall other | Wanted(closure, infos, skipUpstream, keyName, other) && GetPathHash(other.path) == h ::
         other == info
  }

  /** After a run that ends well, a wanted path that was neither listed nor in the registry is in the index, under
      the hash at the start of its name, as it was exported; unless another wanted path has the same hash. */
  lemma PublishedAsExported(r: State, r': State, closure: seq<string>, infos: map<string, PathInfo>,
                            skipUpstream: bool, keyName: string, exporter: Exporter, c: Course, now: Time,
                            info: PathInfo, h: string, rest: string)
    requires IsCourse(r, r', true, closure, infos, skipUpstream, keyName, exporter, c, now) && AllCanonical(infos)
    requires OnlyOne(closure, infos, skipUpstream, keyName, info, h)
    requires info.path == STORE_DIR + h + rest && IsNixHash(h) && Free(rest, {'/'})
    requires h !in CurrentIndex(r).entries && !HasLive(r, h)
    ensures h in CurrentIndex(r').entries && SaysOf(CurrentIndex(r').entries[h], info, exporter, now)
    ensures HasLive(r', h) && info.path in exporter.exports && exporter.exports[info.path].hex in r'.blobs
  {
    HashOfStorePath(h, rest);
    WantedIsCandidate(closure, infos, skipUpstream, keyName, info);
    assert info in c.uploadList;
    var res := ResultOf(c, exporter, info, h);
    ResultsAreNew(r, r', true, closure, infos, skipUpstream, keyName, exporter, c, now);
    forall other | other in c.results && other.hash == h ensures DescribesUpload(info, exporter, other) {
      SameUpload(r, closure, infos, skipUpstream, keyName, exporter, info, h, other);
    }
    assert Completed(r', exporter, c, now);
    MergedAsExported(c, r', exporter, info, h, res, now);
  }

  lemma ResultOf(c: Course, exporter: Exporter, info: PathInfo, h: string) returns (res: UploadResult)
    requires AllUploaded(c.uploaded, c.uploadList, exporter, c.results) && info in c.uploadList
    requires GetPathHash(info.path) == h && IsNixHash(h)
    ensures res in c.results && res.hash == h && IsUploaded(c.uploaded, res) && DescribesUpload(info, exporter, res)
  {
    var i :| 0 <= i < |c.uploadList| && c.uploadList[i] == info;
    res := c.results[i];
    assert Delivered(c.uploaded, c.uploadList[i], exporter, res);
    NixHashIsCanonical(h);
  }

  lemma SameUpload(r: State, closure: seq<string>, infos: map<string, PathInfo>, skipUpstream: bool,
                   keyName: string, exporter: Exporter, info: PathInfo, h: string, res: UploadResult)
    requires IsNew(r, closure, infos, skipUpstream, keyName, exporter, res) && res.hash == h
    requires OnlyOne(closure, infos, skipUpstream, keyName, info, h)
    ensures DescribesUpload(info, exporter, res)
  {
    var other :| IsCandidate(closure, infos, skipUpstream, keyName, other) &&
      GetPathHash(other.path) == res.hash && DescribesUpload(other, exporter, res);
    CandidateIsWanted(closure, infos, skipUpstream, keyName, other);
  }

  lemma MergedAsExported(c: Course, r': State, exporter: Exporter, info: PathInfo, h: string, res: UploadResult,
                         now: Time)
    requires r' == Merged(c.uploaded, CurrentIndex(c.uploaded), c.results, now)
    requires res in c.results && res.hash == h && IsUploaded(c.uploaded, res)
    requires DescribesUpload(info, exporter, res)
    requires forall other | other in c.results && other.hash == h :: DescribesUpload(info, exporter, other)
    ensures h in CurrentIndex(r').entries && SaysOf(CurrentIndex(r').entries[h], info, exporter, now)
    ensures HasLive(r', h) && info.path in exporter.exports && exporter.exports[info.path].hex in r'.blobs
  {
    var last := LastDecides(c.diffed, CurrentIndex(c.uploaded).entries, c.results, h, now);
    ItemSays(info, exporter, last.value, now);
  }

  /** Nothing is listed that is not wanted. */
  lemma OnlyWantedAdded(r: State, r': State, ok: bool, closure: seq<string>, infos: map<string, PathInfo>,
                        skipUpstream: bool, keyName: string, exporter: Exporter, c: Course, now: Time, h: string)
    requires IsCourse(r, r', ok, closure, infos, skipUpstream, keyName, exporter, c, now) && AllCanonical(infos)
    requires forall p | p in infos :: infos[p].path == p
    requires h in CurrentIndex(r').entries && h !in CurrentIndex(r).entries
    ensures exists info :: Wanted(closure, infos, skipUpstream, keyName, info) && GetPathHash(info.path) == h
  {
    DiffedIndex(r, c.index, c.diffed, c.uploaded);
    if h in c.index.entries {
      RecoveredIsWanted(r, closure, infos, skipUpstream, keyName, c.index, c.uploadList, h, now);
    } else {
      ResultsAreNew(r, r', ok, closure, infos, skipUpstream, keyName, exporter, c, now);
      var res := AddedByMerge(c, r', exporter, h, now);
      NewIsWanted(r, closure, infos, skipUpstream, keyName, exporter, res);
    }
  }

  lemma DiffedIndex(r: State, index: Snapshot, diffed: State, uploaded: State)
    requires if diffed == r then index == CurrentIndex(r) else diffed == Pushed(r, index)
    requires Grown(diffed, uploaded)
    ensures CurrentIndex(uploaded).entries.Keys == index.entries.Keys
  {
    assert CurrentIndex(uploaded) == CurrentIndex(diffed);
  }

  lemma AddedByMerge(c: Course, r': State, exporter: Exporter, h: string, now: Time) returns (res: UploadResult)
    requires r' == c.uploaded || Completed(r', exporter, c, now)
    requires h in CurrentIndex(r').entries && h !in CurrentIndex(c.uploaded).entries
    ensures res in c.results && res.hash == h
  {
    var last := LastDecides(c.diffed, CurrentIndex(c.uploaded).entries, c.results, h, now);
    res := last.value;
  }

  lemma NewIsWanted(r: State, closure: seq<string>, infos: map<string, PathInfo>, skipUpstream: bool,
                    keyName: string, exporter: Exporter, res: UploadResult)
    requires IsNew(r, closure, infos, skipUpstream, keyName, exporter, res)
    requires forall p | p in infos :: infos[p].path == p
    ensures exists info :: Wanted(closure, infos, skipUpstream, keyName, info) && GetPathHash(info.path) == res.hash
  {
    var info :| IsCandidate(closure, infos, skipUpstream, keyName, info) &&
      GetPathHash(info.path) == res.hash && DescribesUpload(info, exporter, res);
    CandidateIsWanted(closure, infos, skipUpstream, keyName, info);
  }

  lemma RecoveredIsWanted(r: State, closure: seq<string>, infos: map<string, PathInfo>, skipUpstream: bool,
                          keyName: string, index: Snapshot, uploadList: seq<PathInfo>, h: string, now: Time)
    requires IsDiff(r, closure, infos, skipUpstream, keyName, index, uploadList, now) && AllCanonical(infos)
    requires forall p | p in infos :: infos[p].path == p
    requires h in index.entries && h !in CurrentIndex(r).entries
    ensures exists info :: Wanted(closure, infos, skipUpstream, keyName, info) && GetPathHash(info.path) == h
  {
    var tags := Unlisted(r, closure, infos, skipUpstream, keyName);
    RecoveredIsMissing(r, tags, h, index.entries[h], now);
    var path :| path in infos && IsCandidate(closure, infos, skipUpstream, keyName, infos[path]) &&
      GetPathHash(infos[path].path) == h;
    CandidateIsWanted(closure, infos, skipUpstream, keyName, infos[path]);
  }

  // ----- the sizes a sweep goes by -----

  /** The size of the first layer under a tag. */
  function LayerSize(r: State, tag: string): nat {
    if tag in r.manifests && r.manifests[tag].layers != [] then r.manifests[tag].layers[0].size else 0
  }

  ghost function LayerSizes(r: State, tags: set<string>): nat {
    if tags == {} then 0
    else
      var t :| t in tags;
      LayerSize(r, t) + LayerSizes(r, tags - {t})
  }

  ghost function NewHashes(r: State, r': State): set<string> {
    CurrentIndex(r').entries.Keys - CurrentIndex(r).entries.Keys
  }

  lemma {:induction false} SizesAreLayers(r: State, entries: Entries, tags: set<string>)
    requires tags <= entries.Keys && forall t | t in tags :: entries[t].narSize == LayerSize(r, t)
    ensures SumSizes(entries, tags) == LayerSizes(r, tags)
    decreases |tags|
  {
    if tags != {} {
      var t :| t in tags && LayerSizes(r, tags) == LayerSize(r, t) + LayerSizes(r, tags - {t});
      SumWithout(entries, tags, t);
      SizesAreLayers(r, entries, tags - {t});
    }
  }

  /** The bytes a sweep counts grow by exactly the layers of the manifests behind the new entries. */
  lemma SweepCountsLayers(r: State, r': State, now: Time, pol: Policy, before: Result, pol': Policy, after: Result)
    requires GrowsTruly(r, r', now)
    requires IsSweep(CurrentIndex(r), pol, before) && IsSweep(CurrentIndex(r'), pol', after)
    ensures after.originalSize == before.originalSize + LayerSizes(r', NewHashes(r, r'))
  {
    SizesAdd(r', CurrentIndex(r).entries, CurrentIndex(r').entries, now);
    SizeIsOriginal(CurrentIndex(r), pol, before);
    SizeIsOriginal(CurrentIndex(r'), pol', after);
  }

  lemma SizeIsOriginal(ix: Snapshot, pol: Policy, result: Result)
    requires IsSweep(ix, pol, result)
    ensures result.originalSize == SumSizes(ix.entries, ix.entries.Keys)
  {
  }

  lemma SizesAdd(r: State, entries: Entries, entries': Entries, now: Time)
    requires forall h | h in entries :: h in entries' && entries'[h] == entries[h]
    requires forall h | h in entries' && h !in entries :: h in r.manifests && TrueTo(r.manifests[h], entries'[h], now)
    ensures SumSizes(entries', entries'.Keys) ==
      SumSizes(entries, entries.Keys) + LayerSizes(r, entries'.Keys - entries.Keys)
  {
    var added := entries'.Keys - entries.Keys;
    SumOfParts(entries', entries.Keys, added);
    assert entries'.Keys == entries.Keys + added;
    SumAgrees(entries, entries', entries.Keys);
    SizesAreLayers(r, entries', added);
  }
}
