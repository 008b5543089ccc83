/** The OCI registry as the cache uses it: blobs, one manifest per store path, and the index.

    A manifest stands for what its JSON holds, a blob for its SHA-256 digest in hexadecimal, and the
    manifest tag `noci-index` for the list of all indexes ever pushed under it: its digest is the
    length of that list.  A request may fail for the resources a registry is shaky about, and then it
    is arbitrary whether it takes effect; for all others it is answered. */
module Registries {
  import opened Wrappers
  import opened Text
  import opened StorePaths
  import opened CacheIndexes

  // ----- hashes, digests and tags -----

  function Lower(c: char): char {
    if 'A' <= c <= 'Z' then c - 'A' + 'a' else c
  }

  /** `strings.ToLower` on ASCII text. */
  function ToLower(s: string): string {
    seq(|s|, i requires 0 <= i < |s| => Lower(s[i]))
  }

  function TrimLeft(s: string): string {
    if s != "" && s[0] in WHITESPACE then TrimLeft(s[1..]) else s
  }

  function TrimRight(s: string): string {
    if s != "" && s[|s| - 1] in WHITESPACE then TrimRight(s[..|s| - 1]) else s
  }

  function TrimSpace(s: string): string {
    TrimRight(TrimLeft(s))
  }

  function ParseNixHash(s: string): Option<string> {
    var cleaned := ToLower(TrimSpace(s));
    if IsNixHash(cleaned) then Some(cleaned) else None
  }

  function ParseOciDigest(s: string): Option<string> {
    var hex := TrimPrefix(TrimSpace(s), SHA256_PREFIX);
    if |hex| != 64 then None else Some(SHA256_PREFIX + ToLower(hex))
  }

  /** Sixty-four lower-case hexadecimal digits, as `hex.EncodeToString` writes a SHA-256 sum. */
  predicate IsSha256Hex(hex: string) {
    |hex| == 64 && forall i | 0 <= i < |hex| :: hex[i] in "0123456789abcdef"
  }

  function Zeros(): (hex: string)
    ensures IsSha256Hex(hex)
  {
    assert "0123456789abcdef"[0] == '0';
    seq(64, _ => '0')
  }

  type Sha256 = hex: string | IsSha256Hex(hex) witness Zeros()

  predicate IsTagCharacter(c: char) {
    '0' <= c <= '9' || 'a' <= c <= 'z' || 'A' <= c <= 'Z' || c == '_'
  }

  /** A tag in the sense of the OCI Distribution Specification, section "Pulling manifests". */
  predicate IsTag(s: string) {
    && 1 <= |s| <= 128
    && IsTagCharacter(s[0])
    && forall i | 0 <= i < |s| :: IsTagCharacter(s[i]) || s[i] == '.' || s[i] == '-'
  }

  lemma TrimSpaceIdentity(s: string)
    requires s != "" ==> s[0] !in WHITESPACE && s[|s| - 1] !in WHITESPACE
    ensures TrimSpace(s) == s
  {
  }

  predicate Blank(s: string) {
    forall i | 0 <= i < |s| :: s[i] in WHITESPACE
  }

  lemma {:induction false} TrimLeftBlank(blank: string, s: string)
    requires Blank(blank)
    ensures TrimLeft(blank + s) == TrimLeft(s)
  {
    if blank == "" {
      assert blank + s == s;
    } else {
      assert (blank + s)[1..] == blank[1..] + s;
      TrimLeftBlank(blank[1..], s);
    }
  }

  lemma {:induction false} TrimRightBlank(s: string, blank: string)
    requires Blank(blank)
    ensures TrimRight(s + blank) == TrimRight(s)
  {
    if blank == "" {
      assert s + blank == s;
    } else {
      assert (s + blank)[..|s + blank| - 1] == s + blank[..|blank| - 1];
      TrimRightBlank(s, blank[..|blank| - 1]);
    }
  }

  /** Trimming takes away the white space around a text and nothing of the text. */
  lemma TrimSpaceIs(before: string, s: string, after: string)
    requires Blank(before) && Blank(after) && s != "" && s[0] !in WHITESPACE && s[|s| - 1] !in WHITESPACE
    ensures TrimSpace(before + s + after) == s
  {
    assert before + s + after == before + (s + after);
    TrimLeftBlank(before, s + after);
    TrimRightBlank(s, after);
  }

  /** A Nix hash is found in any spelling, ... */
  lemma HashInAnySpelling(before: string, hash: string, after: string)
    requires Blank(before) && Blank(after) && |hash| == 32 && IsNixHash(ToLower(hash))
    requires hash[0] !in WHITESPACE && hash[31] !in WHITESPACE
    ensures ParseNixHash(before + hash + after) == Some(ToLower(hash))
  {
    TrimSpaceIs(before, hash, after);
  }

  /** ... and a digest in any spelling, with its prefix or without. */
  lemma DigestWithOrWithout(before: string, hex: string, after: string)
    requires Blank(before) && Blank(after) && |hex| == 64 && IsSha256Hex(ToLower(hex))
    requires hex[0] !in WHITESPACE && hex[63] !in WHITESPACE
    ensures ParseOciDigest(before + hex + after) == Some("sha256:" + ToLower(hex))
    ensures ParseOciDigest(before + ("sha256:" + hex) + after) == Some("sha256:" + ToLower(hex))
  {
    NoSpace('s');
    TrimSpaceIs(before, hex, after);
    BareHasNoPrefix(hex);
    TrimSpaceIs(before, "sha256:" + hex, after);
    assert TrimPrefix("sha256:" + hex, SHA256_PREFIX) == hex;
  }

  lemma BareHasNoPrefix(hex: string)
    requires |hex| == 64 && IsSha256Hex(ToLower(hex))
    ensures TrimPrefix(hex, SHA256_PREFIX) == hex
  {
    assert SHA256_PREFIX[0] == 's' && 's' !in "0123456789abcdef";
    assert ToLower(hex)[0] == Lower(hex[0]);
  }

  lemma BareIsLower(hex: string)
    requires IsSha256Hex(hex)
    ensures ToLower(hex) == hex
  {
    forall i | 0 <= i < |hex| ensures Lower(hex[i]) == hex[i] {
      HexDigit(hex[i]);
    }
  }

  predicate LowerAlphanumeric(c: char) {
    '0' <= c <= '9' || 'a' <= c <= 'z'
  }

  lemma NoSpace(c: char)
    requires LowerAlphanumeric(c)
    ensures c !in WHITESPACE
  {
  }

  lemma NixDigit(c: char)
    requires c in NIX_ALPHABET
    ensures LowerAlphanumeric(c)
  {
    var k :| 0 <= k < |NIX_ALPHABET| && NIX_ALPHABET[k] == c;
  }

  lemma HexDigit(c: char)
    requires c in "0123456789abcdef"
    ensures LowerAlphanumeric(c)
  {
  }

  /** A Nix hash is already in the form the parser gives, and is a tag. */
  lemma NixHashIsCanonical(s: string)
    requires IsNixHash(s)
    ensures ToLower(s) == s && ParseNixHash(s) == Some(s) && IsTag(s)
  {
    forall i | 0 <= i < |s| ensures LowerAlphanumeric(s[i]) {
      NixDigit(s[i]);
    }
    NoSpace(s[0]);
    NoSpace(s[31]);
    TrimSpaceIdentity(s);
    assert ToLower(s) == s;
  }

  lemma DigestIsCanonical(hex: string)
    requires IsSha256Hex(hex)
    ensures ParseOciDigest(SHA256_PREFIX + hex) == Some(SHA256_PREFIX + hex)
    ensures BareHex(SHA256_PREFIX + hex) == hex
  {
    var s := SHA256_PREFIX + hex;
    assert s[0] == 's' && s[|s| - 1] == hex[63];
    forall i | 0 <= i < |hex| ensures LowerAlphanumeric(hex[i]) {
      HexDigit(hex[i]);
    }
    NoSpace('s');
    NoSpace(hex[63]);
    TrimSpaceIdentity(s);
    assert TrimPrefix(s, SHA256_PREFIX) == hex;
    assert ToLower(hex) == hex;
  }

  // ----- manifests -----

  datatype Descriptor = Descriptor(digest: string, size: nat)

  datatype Manifest = Manifest(layers: seq<Descriptor>, annotations: Option<map<string, string>>)

  /** What a tag is overwritten with when the registry does not let it be deleted. */
  const TOMBSTONE: Manifest := Manifest([], Some(map["org.nix.evicted" := "true"]))

  /** What a publisher knows about a path once its archive has been uploaded. */
  datatype UploadResult = UploadResult(hash: string, name: string, narInfo: string, digest: string, size: nat,
    refs: seq<string>)

  function ManifestOf(res: UploadResult): Manifest {
    Manifest([Descriptor(res.digest, res.size)],
             Some(map["org.nix.narinfo" := res.narInfo, "org.nix.name" := res.name,
               "org.nix.references" := Join(res.refs, ',')]))
  }

  /** The entry a publisher adds to the index for an upload. */
  function ItemOf(res: UploadResult, now: Time): IndexItem {
    NewItem(res.name, res.narInfo, res.digest, res.size, res.refs, now)
  }

  /** A manifest that describes an archive; a tombstone does not. */
  predicate IsLive(m: Manifest) {
    m.annotations.Some? && m.layers != [] && ParseOciDigest(m.layers[0].digest).Some?
  }

  /** The blob a live manifest points to. */
  function LayerBlob(m: Manifest): string
    requires IsLive(m)
  {
    BareHex(ParseOciDigest(m.layers[0].digest).value)
  }

  // ----- the state of a registry -----

  datatype State = State(blobs: set<string>, manifests: map<string, Manifest>, pushes: seq<Snapshot>)

  /** The index a client fetches now: the last one pushed, upgraded, or a new one. */
  function CurrentIndex(r: State): Snapshot {
    if r.pushes == [] then Snapshot(map[], map[]) else Fetched(r.pushes[|r.pushes| - 1])
  }

  function Fetched(pushed: Snapshot): Snapshot {
    Snapshot(UpgradedEntries(pushed.entries), pushed.roots)
  }

  function IndexDigest(r: State): Option<nat> {
    if r.pushes == [] then None else Some(|r.pushes|)
  }

  predicate HasLive(r: State, tag: string) {
    tag in r.manifests && IsLive(r.manifests[tag])
  }

  /** What a registry guarantees about the tags it holds. */
  ghost predicate WellTagged(r: State) {
    forall t | t in r.manifests :: IsTag(t)
  }

  // ----- soundness: what the index promises is there -----

  /** The entry can be served: its tag names a live manifest and its archive is stored. */
  predicate Backed(r: State, hash: string, item: IndexItem) {
    HasLive(r, hash) && item.narDigest in r.blobs
  }

  ghost predicate AllBacked(r: State, entries: Entries) {
    forall h | h in entries :: Backed(r, h, entries[h])
  }

  /** Every live manifest points to a stored archive. */
  ghost predicate LayersStored(r: State) {
    forall t | HasLive(r, t) :: LayerBlob(r.manifests[t]) in r.blobs
  }

  ghost predicate Sound(r: State) {
    LayersStored(r) && AllBacked(r, CurrentIndex(r).entries)
  }

  /** `r'` has everything `r` has to serve and possibly more. */
  ghost predicate Extends(r: State, r': State) {
    && r.blobs <= r'.blobs
    && forall t | HasLive(r, t) :: HasLive(r', t)
  }

  lemma BackedInExtension(r: State, r': State, entries: Entries)
    requires Extends(r, r') && AllBacked(r, entries)
    ensures AllBacked(r', entries)
  {
    forall h | h in entries ensures Backed(r', h, entries[h]) {
      assert Backed(r, h, entries[h]);
    }
  }

  // ----- the registry and its clients' requests -----

  predicate EachOnce(tags: seq<string>) {
    forall i, j | 0 <= i < j < |tags| :: tags[i] != tags[j]
  }

  datatype FetchReply = Found(manifest: Manifest) | NotFound | NoAnswer

  const INDEX_TAG := "noci-index"
  const TAG_LIST := "tags/list"

  class Registry {
    var state: State
    /** The tags and blobs, the index tag and the tag list, for which requests may fail. */
    const shaky: set<string>

    constructor (state: State, shaky: set<string>)
      ensures this.state == state && this.shaky == shaky
    {
      this.state, this.shaky := state, shaky;
    }

    /** Whether a request for `resource` gets through. */
    method Reach(resource: string) returns (reached: bool)
      ensures resource !in shaky ==> reached
    {
      reached := *;
      reached := reached || resource !in shaky;
    }

    method FetchManifest(tag: string) returns (reply: FetchReply)
      ensures reply.Found? ==> tag in state.manifests && reply.manifest == state.manifests[tag]
      ensures reply.NotFound? ==> tag !in state.manifests
      ensures reply.NoAnswer? ==> tag in shaky
    {
      var reached := Reach(tag);
      if !reached {
        return NoAnswer;
      }
      reply := if tag in state.manifests then Found(state.manifests[tag]) else NotFound;
    }

    method ManifestExists(tag: string) returns (found: bool)
      ensures found ==> tag in state.manifests
      ensures tag in state.manifests && tag !in shaky ==> found
    {
      var reached := Reach(tag);
      found := reached && tag in state.manifests;
    }

    /** A `HEAD` request for the index tag; no digest when it fails or there is no index. */
    method HeadIndex() returns (digest: Option<nat>)
      ensures digest.Some? || INDEX_TAG !in shaky ==> digest == IndexDigest(state)
    {
      var reached := Reach(INDEX_TAG);
      digest := if reached then IndexDigest(state) else None;
    }

    method PushManifest(tag: string, m: Manifest) returns (ok: bool)
      modifies this
      ensures ok ==> IsTag(tag) && state == old(state).(manifests := old(state).manifests[tag := m])
      ensures !ok ==>
        || state == old(state)
        || (IsTag(tag) && state == old(state).(manifests := old(state).manifests[tag := m]))
      ensures IsTag(tag) && tag !in shaky ==> ok
    {
      var reached := Reach(tag);
      var answered := Reach(tag);
      if reached && IsTag(tag) {
        state := state.(manifests := state.manifests[tag := m]);
      }
      ok := reached && answered && IsTag(tag);
    }

    method UploadBlob(hex: string) returns (ok: bool)
      modifies this
      ensures ok ==> state == old(state).(blobs := old(state).blobs + {hex})
      ensures !ok ==> state == old(state) || state == old(state).(blobs := old(state).blobs + {hex})
      ensures hex !in shaky ==> ok
    {
      var reached := Reach(hex);
      var answered := Reach(hex);
      if reached {
        state := state.(blobs := state.blobs + {hex});
      }
      ok := reached && answered;
    }

    method FetchIndex(now: Time) returns (ok: bool, index: CacheIndex)
      ensures fresh(index)
      ensures ok ==> index.View() == CurrentIndex(state)
      ensures INDEX_TAG !in shaky ==> ok
    {
      var reached := Reach(INDEX_TAG);
      if !reached || state.pushes == [] {
        index := new CacheIndex.NewIndex(now);
        return reached, index;
      }
      index := new CacheIndex.Decode(2, [], state.pushes[|state.pushes| - 1], now);
      ok := true;
    }

    method PushIndex(index: CacheIndex, now: Time) returns (ok: bool)
      modifies this, index`generated
      ensures ok ==> state == old(state).(pushes := old(state).pushes + [index.View()])
      ensures !ok ==> state == old(state) || state == old(state).(pushes := old(state).pushes + [index.View()])
      ensures INDEX_TAG !in shaky ==> ok
    {
      index.generated := now;
      var reached := Reach(INDEX_TAG);
      var answered := Reach(INDEX_TAG);
      if reached {
        state := state.(pushes := state.pushes + [Snapshot(index.entries, index.roots)]);
      }
      ok := reached && answered;
    }

    method ListTags() returns (ok: bool, tags: seq<string>)
      ensures ok ==> (forall t :: t in tags <==> t in state.manifests) && EachOnce(tags)
      ensures TAG_LIST !in shaky ==> ok
    {
      var reached := Reach(TAG_LIST);
      tags := [];
      if !reached {
        return false, tags;
      }
      var todo := state.manifests.Keys;
      while todo != {}
        invariant todo <= state.manifests.Keys
        invariant forall t :: t in tags <==> t in state.manifests && t !in todo
        invariant EachOnce(tags)
      {
        var t :| t in todo;
        todo := todo - {t};
        tags := tags + [t];
      }
      ok := true;
    }

    /** The registry's answer to a `DELETE`: what it says is what it did.  When it is not shaky about the tag it
        deletes it or says that it does not let tags be deleted. */
    method Delete(tag: string) returns (status: Option<int>)
      modifies this
      ensures status.Some? && status.value in {200, 202, 404} ==>
        state == old(state).(manifests := old(state).manifests - {tag})
      ensures status.None? ==> state == old(state) || state == old(state).(manifests := old(state).manifests - {tag})
      ensures status.Some? && status.value !in {200, 202, 404} ==> state == old(state)
      ensures tag !in shaky ==> status.Some? && status.value in {200, 202, 404, 405, 403, 401}
    {
      var reached := Reach(tag);
      var answered := Reach(tag);
      var code: int := *;
      if (tag !in shaky && code !in {200, 202, 404, 405, 403, 401}) || (code == 404 && tag in state.manifests) {
        code := 202;
      }
      if reached && code in {200, 202, 404} {
        state := state.(manifests := state.manifests - {tag});
      }
      status := if reached && answered then Some(code) else None;
    }

    /** After success the tag is gone or buried; after failure it may be, or may be as before.  Only a registry that
        is shaky about the tag fails. */
    method DeleteManifest(tag: string) returns (ok: bool)
      modifies this
      ensures var r := old(state);
        || state == r.(manifests := r.manifests - {tag})
        || (IsTag(tag) && state == r.(manifests := r.manifests[tag := TOMBSTONE]))
        || (!ok && state == r)
      ensures IsTag(tag) && tag !in shaky ==> ok
    {
      var status := Delete(tag);
      if status.None? {
        return false;
      }
      if status.value in {200, 202, 404} {
        return true;
      }
      if status.value in {405, 403, 401} {
        ok := PushManifest(tag, TOMBSTONE);
        return;
      }
      ok := false;
    }
  }
}
