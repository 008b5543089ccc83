/** The cache index: the JSON document that is the cache's only database. */
module CacheIndexes {
  import opened Text
  import opened StorePaths

  /** Nanoseconds since the Unix epoch. */
  type Time = int

  const SECOND: int := 1_000_000_000
  /** Go's zero time, the first instant of year 1. */
  const ZERO_TIME: Time := -62_135_596_800 * SECOND

  function Unix(t: Time): int {
    t / SECOND
  }

  datatype GCRoot = GCRoot(pinnedAt: Time, ttl: int)

  datatype IndexItem = IndexItem(
    name: string,
    narInfo: string,
    narDigest: string,
    narSize: nat,
    added: Time,
    lastUsed: Time,
    uploadedAt: Time,
    references: seq<string>)

  type Entries = map<string, IndexItem>

  /** What a push of the index stores and a fetch gives back. */
  datatype Snapshot = Snapshot(entries: Entries, roots: map<string, GCRoot>)

  const SHA256_PREFIX := "sha256:"

  function BareHex(digest: string): string {
    TrimPrefix(digest, SHA256_PREFIX)
  }

  /** The entry a publisher records for an upload at time `now`. */
  function NewItem(name: string, narInfo: string, digest: string, size: nat, refs: seq<string>, now: Time): IndexItem {
    IndexItem(name, narInfo, BareHex(digest), size, now, now, now, refs)
  }

  // ----- references recorded in a narinfo text -----

  const REFERENCES_PREFIX := "References: "

  function ReferencesOfLine(line: string): seq<string> {
    InStore(Fields(TrimPrefix(line, REFERENCES_PREFIX)))
  }

  function InStore(names: seq<string>): seq<string> {
    seq(|names|, i requires 0 <= i < |names| => STORE_DIR + names[i])
  }

  function ReferencesOfLines(lines: seq<string>): seq<string> {
    if lines == [] then []
    else if HasPrefix(lines[0], REFERENCES_PREFIX) then ReferencesOfLine(lines[0])
    else ReferencesOfLines(lines[1..])
  }

  /** The references on the first "References: " line, or none without such a line. */
  function ReferencesOfNarInfo(narInfo: string): seq<string> {
    ReferencesOfLines(Split(narInfo, {'\n'}))
  }

  method ParseReferencesFromNarInfo(narInfo: string) returns (refs: seq<string>)
    ensures refs == ReferencesOfNarInfo(narInfo)
  {
    refs := [];
    var lines := Split(narInfo, {'\n'});
    var i := 0;
    while i < |lines|
      invariant 0 <= i <= |lines|
      invariant refs == []
      invariant ReferencesOfLines(lines[i..]) == ReferencesOfLines(lines)
    {
      if HasPrefix(lines[i], REFERENCES_PREFIX) {
        var fields := Fields(TrimPrefix(lines[i], REFERENCES_PREFIX));
        for j := 0 to |fields|
          invariant refs == InStore(fields[..j])
        {
          refs := refs + [STORE_DIR + fields[j]];
          assert fields[..j + 1] == fields[..j] + [fields[j]];
        }
        assert fields[..|fields|] == fields;
        return;
      }
      i := i + 1;
    }
  }

  // ----- migration of a version 1 document -----

  function UpgradedItem(item: IndexItem): IndexItem {
    item.(lastUsed := if item.lastUsed == ZERO_TIME then item.added else item.lastUsed,
          uploadedAt := if item.uploadedAt == ZERO_TIME then item.added else item.uploadedAt,
          references := if item.references == [] && item.narInfo != "" then ReferencesOfNarInfo(item.narInfo)
                        else item.references)
  }

  function UpgradedEntries(entries: Entries): Entries {
    map h | h in entries :: UpgradedItem(entries[h])
  }

  function UpgradedRoots(roots: map<string, GCRoot>, gcRootsV1: seq<string>, now: Time): map<string, GCRoot> {
    (map r | r in gcRootsV1 :: GCRoot(now, 0)) + roots
  }

  lemma UpgradedRootsStep(roots: map<string, GCRoot>, v1: seq<string>, i: nat, now: Time)
    requires i < |v1|
    ensures UpgradedRoots(roots, v1[..i + 1], now) ==
            var before := UpgradedRoots(roots, v1[..i], now); if v1[i] in before then
              before else before[v1[i] := GCRoot(now, 0)]
  {
    assert v1[..i + 1] == v1[..i] + [v1[i]];
  }

  /** Every fetch upgrades the document again; after the first time that changes nothing. */
  lemma UpgradeIdempotent(entries: Entries, roots: map<string, GCRoot>, gcRootsV1: seq<string>, now: Time, later: Time)
    ensures UpgradedEntries(UpgradedEntries(entries)) == UpgradedEntries(entries)
    ensures UpgradedRoots(UpgradedRoots(roots, gcRootsV1, now), [], later) == UpgradedRoots(roots, gcRootsV1, now)
  {
    var once := UpgradedEntries(entries);
    assert UpgradedEntries(once) == once;
  }

  class CacheIndex {
    var version: int
    var gcRootsV1: seq<string>
    var generated: Time
    var roots: map<string, GCRoot>
    var entries: Entries

    ghost function View(): Snapshot
      reads this
    {
      Snapshot(entries, roots)
    }

    constructor NewIndex(now: Time)
      ensures View() == Snapshot(map[], map[])
      ensures version == 2 && gcRootsV1 == [] && generated == now
    {
      version, gcRootsV1, generated := 2, [], now;
      roots, entries := map[], map[];
    }

    constructor Decode(version: int, gcRootsV1: seq<string>, snapshot: Snapshot, now: Time)
      ensures View() == Snapshot(UpgradedEntries(snapshot.entries), UpgradedRoots(snapshot.roots, gcRootsV1, now))
      ensures this.version >= 2 && this.gcRootsV1 == []
    {
      this.version, this.gcRootsV1, this.generated := version, gcRootsV1, now;
      roots, entries := snapshot.roots, snapshot.entries;
      new;
      Upgrade(now);
    }

    method Upgrade(now: Time)
      modifies this
      ensures version == (if old(version) < 2 then 2 else old(version)) && gcRootsV1 == []
      ensures roots == UpgradedRoots(old(roots), old(gcRootsV1), now)
      ensures entries == UpgradedEntries(old(entries))
      ensures generated == old(generated)
    {
      if version < 2 {
        version := 2;
      }
      MigrateRoots(now);
      Backfill();
    }

    method MigrateRoots(now: Time)
      modifies `roots, `gcRootsV1
      ensures roots == UpgradedRoots(old(roots), old(gcRootsV1), now) && gcRootsV1 == []
    {
      for i := 0 to |gcRootsV1|
        invariant gcRootsV1 == old(gcRootsV1)
        invariant roots == UpgradedRoots(old(roots), gcRootsV1[..i], now)
      {
        var r := gcRootsV1[i];
        UpgradedRootsStep(old(roots), gcRootsV1, i, now);
        if r !in roots {
          roots := roots[r := GCRoot(now, 0)];
        }
      }
      assert gcRootsV1[..|gcRootsV1|] == gcRootsV1;
      gcRootsV1 := [];
    }

    method Backfill()
      modifies `entries
      ensures entries == UpgradedEntries(old(entries))
    {
      ghost var before := entries;
      var todo := entries.Keys;
      while todo != {}
        invariant todo <= entries.Keys == before.Keys
        invariant forall h | h in entries :: entries[h] == if h in todo then before[h] else UpgradedItem(before[h])
      {
        var k :| k in todo;
        todo := todo - {k};
        var entry, modified := BackfillEntry(entries[k]);
        if modified {
          entries := entries[k := entry];
        }
      }
    }

    static method BackfillEntry(item: IndexItem) returns (entry: IndexItem, modified: bool)
      ensures entry == UpgradedItem(item)
      ensures !modified ==> entry == item
    {
      entry, modified := item, false;
      if entry.lastUsed == ZERO_TIME {
        entry, modified := entry.(lastUsed := entry.added), true;
      }
      if entry.uploadedAt == ZERO_TIME {
        entry, modified := entry.(uploadedAt := entry.added), true;
      }
      if |entry.references| == 0 && entry.narInfo != "" {
        var refs := ParseReferencesFromNarInfo(entry.narInfo);
        entry, modified := entry.(references := refs), true;
      }
    }

    method AddEntry(hash: string, name: string, narInfo: string, digest: string, size: nat, refs: seq<string>,
                    now: Time)
      modifies this
      ensures entries == old(entries)[hash := NewItem(name, narInfo, digest, size, refs, now)]
      ensures generated == now
      ensures roots == old(roots) && version == old(version) && gcRootsV1 == old(gcRootsV1)
    {
      entries := entries[hash := IndexItem(name, narInfo, BareHex(digest), size, now, now, now, refs)];
      generated := now;
    }

    method PinRoot(hash: string, ttlSeconds: int, now: Time)
      modifies this
      ensures roots == old(roots)[hash := GCRoot(now, ttlSeconds)]
      ensures entries == old(entries) && generated == old(generated)
      ensures version == old(version) && gcRootsV1 == old(gcRootsV1)
    {
      roots := roots[hash := GCRoot(now, ttlSeconds)];
    }
  }
}
