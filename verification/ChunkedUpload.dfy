/** Uploading a blob, in one request or, when it is large, in chunks ("Pushing a blob monolithically" and
    "Pushing a blob in chunks", OCI Distribution Specification), against a server that may fail before
    or after storing what it was sent. */
module ChunkedUploads {
  import opened Wrappers

  type byte = bv8

  const CHUNK_SIZE := 4 * 1024 * 1024
  const CHUNKED_THRESHOLD := 64 * 1024 * 1024
  const MAX_RETRIES := 3
  const MAX_UPLOAD_RETRIES := 2

  // ----- the local file -----

  datatype ReadError = NoError | EOF | Broken

  /** A file as an upload finds it: whether reading and positioning work, and whether the HTTP client closes it
      once it has been sent, as `net/http` does with the body of a request. */
  datatype LocalFile = LocalFile(content: seq<byte>, readable: bool, closedBySend: bool)

  class File {
    const content: seq<byte>
    const readable: bool
    var pos: nat

    ghost predicate Valid()
      reads this
    {
      pos <= |content|
    }

    constructor (local: LocalFile)
      ensures Valid() && content == local.content && readable == local.readable && pos == 0
    {
      content, readable, pos := local.content, local.readable, 0;
    }

    /** Reads some bytes, possibly fewer than asked for; never nothing without saying why. */
    method Read(buf: array<byte>) returns (n: nat, err: ReadError)
      requires Valid() && buf.Length > 0
      modifies this, buf
      ensures Valid() && n <= buf.Length && pos == old(pos) + n
      ensures buf[..n] == content[old(pos)..pos]
      ensures n == 0 ==> err != NoError
      ensures err == EOF ==> pos == |content|
      ensures readable ==> err != Broken
    {
      var wanted: int := *;
      n := if wanted < 1 then 1 else wanted;
      n := if n > buf.Length then buf.Length else n;
      n := if n > |content| - pos then |content| - pos else n;
      for i := 0 to n
        invariant pos == old(pos)
        invariant buf[..i] == content[pos..pos + i]
      {
        buf[i] := content[pos + i];
      }
      pos := pos + n;
      var broken: bool := *;
      err := if broken && !readable then Broken else if pos == |content| then EOF else NoError;
    }

    /** What a request that sends the rest of the file leaves behind: any later position. */
    method Consume() returns (rest: seq<byte>)
      requires Valid()
      modifies this
      ensures Valid() && rest == old(content[pos..])
    {
      rest := content[pos..];
      var to: int := *;
      pos := if pos <= to <= |content| then to else |content|;
    }

    method Seek(to: nat) returns (ok: bool)
      requires Valid() && to <= |content|
      modifies this
      ensures Valid() && pos == if ok then to else old(pos)
      ensures readable ==> ok
    {
      ok := *;
      ok := ok || readable;
      if ok {
        pos := to;
      }
    }

    /** `io.ReadFull`: exactly `n` bytes into the front of the buffer, or failure. */
    method ReadFull(buf: array<byte>, n: nat) returns (ok: bool)
      requires Valid() && n <= buf.Length
      modifies this, buf
      ensures Valid()
      ensures ok ==> pos == old(pos) + n && buf[..n] == content[old(pos)..pos]
      ensures readable && n <= |content| - old(pos) ==> ok
    {
      ok := *;
      ok := ok || readable;
      if ok && n <= |content| - pos {
        for i := 0 to n
          invariant pos == old(pos)
          invariant buf[..i] == content[pos..pos + i]
        {
          buf[i] := content[pos + i];
        }
        pos := pos + n;
      } else {
        ok := false;
      }
    }
  }

  // ----- the server -----

  datatype Reply = NoReply | Reply(status: int, uploadInvalid: bool, location: Option<nat>) {
    predicate Accepted() {
      Reply? && (status == 200 || status == 201 || status == 202)
    }

    /** No answer, or one for which the client tries again. */
    predicate Passing() {
      NoReply? || status >= 500
    }

    predicate Expired() {
      Reply? && status < 500 && (uploadInvalid || status == 404)
    }
  }

  /** What can be relied on.  With a steady registry nobody interrupts an upload and tokens are granted; a request
      may fail but then without effect, and never more than `tolerance` in a row; and some sessions expire. */
  datatype Quality = Unreliable | Steady(tolerance: nat)

  class BlobRegistry {
    var blobs: map<string, seq<byte>>
    const quality: Quality
    /** Of a steady registry: how many of the next requests fail, and how many of the next sessions may expire. */
    var strikes: nat
    var expiries: nat

    constructor (quality: Quality)
      ensures blobs == map[] && this.quality == quality && strikes == 0 && expiries == 0
    {
      blobs, this.quality, strikes, expiries := map[], quality, 0, 0;
    }

    ghost predicate Steady()
      reads this
    {
      quality.Steady? && strikes <= quality.tolerance
    }

    /** Steady, and no more requests fail in a row than are made up for by `retries` more. */
    ghost predicate SteadyWith(retries: nat)
      reads this
    {
      Steady() && quality.tolerance <= retries
    }

    /** Whether somebody cancels the upload or a token is refused. */
    method Interrupted() returns (interrupted: bool)
      ensures quality.Steady? ==> !interrupted
    {
      interrupted := *;
      interrupted := interrupted && quality.Unreliable?;
    }

    /** Whether the digest is known; a failed probe counts as unknown. */
    method Head(digest: string) returns (known: bool)
      ensures known ==> digest in blobs
      ensures quality.Steady? && digest in blobs ==> known
    {
      known := *;
      known := (known || quality.Steady?) && digest in blobs;
    }

    /** Opens an upload session, which may be one that expires. */
    method Start() returns (started: bool, doomed: bool, notFound: bool)
      modifies this`expiries
      ensures quality.Steady? ==>
        started && doomed == (old(expiries) > 0) && expiries == old(expiries) - if doomed then 1 else 0
    {
      started, doomed, notFound := *, *, *;
      if quality.Steady? {
        started, doomed := true, expiries > 0;
        if doomed {
          expiries := expiries - 1;
        }
      }
    }

    /** Whether the next request fails without effect; after one that does not, others may. */
    method Strike() returns (fails: bool, reply: Reply)
      requires Steady()
      modifies this`strikes
      ensures Steady() && fails == (old(strikes) > 0) && (fails ==> strikes == old(strikes) - 1 && reply.Passing())
    {
      fails, reply := strikes > 0, NoReply;
      if fails {
        strikes := strikes - 1;
        var status: int := *;
        if status >= 500 {
          reply := Reply(status, false, None);
        }
      } else {
        var next: int := *;
        strikes := if 0 <= next <= quality.tolerance then next else 0;
      }
    }

    /** One request with the whole blob: it takes effect only if as many bytes arrive as were declared, and
        whether its answer arrives is another matter. */
    method PutWhole(digest: string, declared: nat, body: seq<byte>, doomed: bool) returns (reply: Reply)
      modifies this
      ensures expiries == old(expiries)
      ensures blobs == old(blobs) || (|body| == declared && blobs == old(blobs)[digest := body])
      ensures reply.Accepted() ==> |body| == declared && blobs == old(blobs)[digest := body]
      ensures old(Steady()) && |body| == declared ==> Steady()
      ensures old(Steady()) && |body| == declared ==>
        if old(strikes) > 0 then reply.Passing() && blobs == old(blobs) && strikes == old(strikes) - 1
        else (reply.Reply? && reply.status in {201, 202}) || (doomed && reply.Expired())
    {
      var lost: bool, answered: bool, invalid: bool := *, *, *;
      var status: int := *;
      if quality.Steady? && strikes <= quality.tolerance {
        var fails, failure := Strike();
        if fails {
          return failure;
        }
        lost, answered, status := false, true, if status == 201 || status == 202 then status else 201;
        if doomed && invalid {
          return Reply(404, true, None);
        }
      }
      if lost || |body| != declared {
        var refused := if status == 200 || status == 201 || status == 202 then 400 else status;
        return if lost then NoReply else Reply(refused, invalid, None);
      }
      blobs := blobs[digest := body];
      reply := if answered then Reply(status, invalid, None) else NoReply;
    }
  }

  class Session {
    const registry: BlobRegistry
    /** It may expire. */
    const doomed: bool
    var stored: seq<byte>
    var location: nat
    /** The byte ranges acknowledged so far. */
    ghost var acknowledged: seq<(int, int)>

    constructor (registry: BlobRegistry, location: nat, doomed: bool)
      ensures this.registry == registry && stored == [] && this.location == location && acknowledged == []
      ensures this.doomed == doomed
    {
      this.registry, stored, this.location, acknowledged, this.doomed := registry, [], location, [], doomed;
    }

    /** A chunk is stored only at the session's location and only at the current end.  Storing it and
        answering are separate: a stored chunk may be answered by an error or not at all, but success
        is answered only for a stored one. */
    method Patch(url: nat, first: int, last: int, body: seq<byte>) returns (reply: Reply)
      modifies this, registry`strikes
      ensures stored == old(stored) || (first == |old(stored)| && stored == old(stored) + body)
      ensures reply.Accepted() ==> first == |old(stored)| && stored == old(stored) + body
      ensures reply.Accepted() ==> location == match reply.location case Some(l) => l case None => url
      ensures acknowledged == if reply.Accepted() then old(acknowledged) + [(first, last)] else old(acknowledged)
      ensures old(registry.Steady()) && url == old(location) && first == |old(stored)| && last == first + |body| - 1 ==>
        registry.Steady()
      ensures old(registry.Steady()) && url == old(location) && first == |old(stored)| && last == first + |body| - 1 ==>
        if old(registry.strikes) > 0
        then
          && reply.Passing() && stored == old(stored) && location == url
          && registry.strikes == old(registry.strikes) - 1
        else reply.Accepted() || (doomed && reply.Expired())
    {
      var lost: bool, invalid: bool := *, *;
      var status: int := *;
      if lost && registry.quality.Steady? {
        lost := false;
      }
      if lost || url != location || first != |stored| || last != first + |body| - 1 {
        var refused := if status == 200 || status == 201 || status == 202 then 416 else status;
        return if lost then NoReply else Reply(refused, invalid, None);
      }
      var moved: bool, answered: bool := *, *;
      if registry.quality.Steady? && registry.strikes <= registry.quality.tolerance {
        var fails, failure := registry.Strike();
        if fails {
          return failure;
        }
        answered, status := true, if status == 201 || status == 200 then status else 202;
        if doomed && invalid {
          return Reply(404, true, None);
        }
      }
      stored := stored + body;
      if moved {
        location := location + 1;
      }
      if !answered {
        return NoReply;
      }
      reply := Reply(status, invalid, if moved then Some(location) else None);
      if reply.Accepted() {
        acknowledged := acknowledged + [(first, last)];
      }
    }

    /** Commits what is stored; the answer may again get lost. */
    method Put(url: nat, digest: string) returns (reply: Reply)
      modifies registry
      ensures registry.expiries == old(registry.expiries)
      ensures registry.blobs == old(registry.blobs) || registry.blobs == old(registry.blobs)[digest := stored]
      ensures reply.Accepted() ==> registry.blobs == old(registry.blobs)[digest := stored]
      ensures old(registry.Steady()) && url == location ==> registry.Steady()
      ensures old(registry.Steady()) && url == location ==>
        if old(registry.strikes) > 0
        then reply.Passing() && registry.blobs == old(registry.blobs) && registry.strikes == old(registry.strikes) - 1
        else reply.Accepted() || (doomed && reply.Expired())
    {
      var lost: bool, answered: bool, invalid: bool := *, *, *;
      var status: int := *;
      if lost && registry.quality.Steady? {
        lost := false;
      }
      if lost || url != location {
        var refused := if status == 200 || status == 201 || status == 202 then 404 else status;
        return if lost then NoReply else Reply(refused, invalid, None);
      }
      if registry.quality.Steady? && registry.strikes <= registry.quality.tolerance {
        var fails, failure := registry.Strike();
        if fails {
          return failure;
        }
        answered, status := true, if status == 200 || status == 202 then status else 201;
        if doomed && invalid {
          return Reply(404, true, None);
        }
      }
      registry.blobs := registry.blobs[digest := stored];
      reply := if answered then Reply(status, invalid, None) else NoReply;
    }
  }

  // ----- the client -----

  datatype Outcome = Uploaded | SessionExpired | Failed

  function FailureOf(reply: Reply): Outcome {
    if reply.Reply? && (reply.uploadInvalid || reply.status == 404) then SessionExpired else Failed
  }

  /** Consecutive ranges that cover bytes 0 to `size` exactly, none longer than a chunk. */
  ghost predicate Tiles(ranges: seq<(int, int)>, size: int) {
    if ranges == [] then size == 0
    else
      var last := ranges[|ranges| - 1];
      last.1 == size - 1 && last.0 <= last.1 < last.0 + CHUNK_SIZE && Tiles(ranges[..|ranges| - 1], last.0)
  }

  /** Each range starts where the one before ended, the first at byte 0 and the last at the end. */
  lemma {:induction false} TilesAreContiguous(ranges: seq<(int, int)>, size: int)
    requires Tiles(ranges, size)
    ensures forall i | 0 <= i < |ranges| ::
              0 <= ranges[i].0 <= ranges[i].1 && ranges[i].0 == if i == 0 then 0 else ranges[i - 1].1 + 1
    ensures forall i | 0 <= i < |ranges| :: ranges[i].1 - ranges[i].0 < 4194304
    ensures size == if ranges == [] then 0 else ranges[|ranges| - 1].1 + 1
    decreases |ranges|
  {
    if ranges != [] {
      var front := ranges[..|ranges| - 1];
      TilesAreContiguous(front, ranges[|ranges| - 1].0);
      forall i | 0 <= i < |ranges|
        ensures 0 <= ranges[i].0 <= ranges[i].1 && ranges[i].0 == if i == 0 then 0 else ranges[i - 1].1 + 1
      {
        if 0 < i {
          assert front[i - 1] == ranges[i - 1];
          assert 0 <= front[i - 1].0 <= front[i - 1].1;
        }
        if i < |front| {
          assert front[i] == ranges[i];
        }
      }
      forall i | 0 <= i < |ranges| ensures ranges[i].1 - ranges[i].0 < 4194304 {
        if i < |front| {
          assert front[i] == ranges[i];
        }
      }
    }
  }

  lemma NextTile(ranges: seq<(int, int)>, offset: nat, n: nat)
    requires Tiles(ranges, offset) && 0 < n <= CHUNK_SIZE
    ensures Tiles(ranges + [(offset, offset + n - 1)], offset + n)
  {
    assert (ranges + [(offset, offset + n - 1)])[..|ranges|] == ranges;
  }

  lemma NextSlice(content: seq<byte>, offset: nat, n: nat)
    requires offset + n <= |content|
    ensures content[..offset] + content[offset..offset + n] == content[..offset + n]
  {
  }

  /** Sends one chunk, already in the buffer, until the server acknowledges it; before each further
      attempt the chunk is read from the file again.  An attempt that was stored without being
      acknowledged makes every later one fail, never a second copy.  As many failures in a row as there are
      retries are made up for. */
  method SendChunk(file: File, buf: array<byte>, n: nat, chunkStart: nat, session: Session, url: nat)
    returns (outcome: Outcome, url': nat)
    requires file.Valid() && 0 < n <= buf.Length && file.pos == chunkStart + n
    requires buf[..n] == file.content[chunkStart..file.pos]
    requires chunkStart == |session.stored|
    modifies file, buf, session, session.registry`strikes
    ensures file.Valid()
    ensures outcome == Uploaded ==>
              && session.stored == old(session.stored) + file.content[chunkStart..chunkStart + n]
              && file.pos == chunkStart + n && url' == session.location
              && session.acknowledged == old(session.acknowledged) + [(chunkStart, chunkStart + n - 1)]
    ensures file.readable && url == old(session.location) && old(session.registry.SteadyWith(MAX_RETRIES)) ==>
        session.registry.Steady() && (outcome == Uploaded || (session.doomed && outcome == SessionExpired))
  {
    ghost var before, chunk := session.stored, file.content[chunkStart..chunkStart + n];
    ghost var registry := session.registry;
    ghost var steady := file.readable && url == session.location && registry.SteadyWith(MAX_RETRIES);
    url' := url;
    for attempt := 0 to MAX_RETRIES + 1
      invariant file.Valid()
      invariant attempt == 0 ==> file.pos == chunkStart + n && buf[..n] == chunk
      invariant session.stored == before || session.stored == before + chunk
      invariant session.acknowledged == old(session.acknowledged)
      invariant steady ==> registry.Steady() && session.stored == before && session.location == url
      invariant steady ==> registry.strikes <= MAX_RETRIES - attempt
    {
      var cancelled := session.registry.Interrupted();
      if cancelled {
        return Failed, url';
      }
      if attempt > 0 {
        var sought := file.Seek(chunkStart);
        if !sought {
          return Failed, url';
        }
        var reread := file.ReadFull(buf, n);
        if !reread {
          return Failed, url';
        }
      }
      var tokenRefused := session.registry.Interrupted();
      if tokenRefused {
        return Failed, url';
      }
      var reply := session.Patch(url, chunkStart, chunkStart + n - 1, buf[..n]);
      if reply.Accepted() {
        url' := match reply.location case Some(l) => l case None => url;
        return Uploaded, url';
      }
      if reply.Reply? && reply.status < 500 {
        return FailureOf(reply), url';
      }
    }
    return Failed, url';
  }

  /** Commits the upload.  When every attempt went unanswered the original dereferences a missing
      response; here that is failure. */
  method Commit(session: Session, url: nat, digest: string) returns (outcome: Outcome)
    modifies session.registry
    ensures session.registry.expiries == old(session.registry.expiries)
    ensures var blobs := old(session.registry.blobs);
      session.registry.blobs == blobs || session.registry.blobs == blobs[digest := session.stored]
    ensures outcome == Uploaded ==> session.registry.blobs == old(session.registry.blobs)[digest := session.stored]
    ensures url == session.location && old(session.registry.SteadyWith(MAX_RETRIES)) ==>
        session.registry.Steady() && (outcome == Uploaded || (session.doomed && outcome == SessionExpired))
  {
    var registry := session.registry;
    ghost var blobs := registry.blobs;
    ghost var steady := url == session.location && registry.SteadyWith(MAX_RETRIES);
    var reply := NoReply;
    var attempt := 0;
    while attempt <= MAX_RETRIES
      invariant 0 <= attempt <= MAX_RETRIES + 1 && registry.expiries == old(registry.expiries)
      invariant registry.blobs == blobs || registry.blobs == blobs[digest := session.stored]
      invariant reply.Passing()
      invariant steady ==> registry.Steady() && registry.strikes <= MAX_RETRIES - attempt
    {
      var stopped := registry.Interrupted();
      if stopped {
        return Failed;
      }
      reply := session.Put(url, digest);
      assert blobs[digest := session.stored][digest := session.stored] == blobs[digest := session.stored];
      if reply.Reply? && reply.status < 500 {
        return if reply.Accepted() then Uploaded else FailureOf(reply);
      }
      attempt := attempt + 1;
    }
    return FailureOf(reply);
  }

  /** Whatever the server and the file system do, nothing but the whole file is ever committed under
      its digest; and success means that it was, with every byte sent in exactly one acknowledged
      range, in order.  With a readable file and a registry that does not fail more often in a row than the client
      tries, only an expired session stands in the way. */
  method UploadBlobChunked(local: LocalFile, digest: string, registry: BlobRegistry)
    returns (outcome: Outcome, ghost ranges: seq<(int, int)>)
    modifies registry
    ensures var blobs, content := old(registry.blobs), local.content;
      registry.blobs == blobs || registry.blobs == blobs[digest := content]
    ensures outcome == Uploaded ==>
      registry.blobs == old(registry.blobs)[digest := local.content] && Tiles(ranges, |local.content|)
    ensures local.readable && old(registry.SteadyWith(MAX_RETRIES)) ==>
      GoesThrough(registry, old(registry.expiries), outcome)
  {
    ranges := [];
    var started, doomed, notFound := registry.Start();
    if !started {
      return if notFound then SessionExpired else Failed, [];
    }
    var url: nat := *;
    var session := new Session(registry, url, doomed);
    var file := new File(local);
    var size := |local.content|;
    var buf := new byte[CHUNK_SIZE];
    var offset := 0;
    var ended := false;
    ghost var expiries := registry.expiries;
    ghost var steady := local.readable && registry.SteadyWith(MAX_RETRIES);
    while offset < size && !ended
      invariant fresh(session) && fresh(file) && fresh(buf) && buf.Length == CHUNK_SIZE
      invariant session.registry == registry && registry.blobs == old(registry.blobs) && registry.expiries == expiries
      invariant file.Valid() && file.content == local.content && file.pos == offset <= size
      invariant session.stored == local.content[..offset]
      invariant Tiles(session.acknowledged, offset)
      invariant ended ==> offset == size
      invariant steady ==> registry.Steady() && url == session.location
      decreases size - offset, if ended then 0 else 1
    {
      var n, err := file.Read(buf);
      if n > 0 {
        var sent;
        ghost var before := session.acknowledged;
        sent, url := SendChunk(file, buf, n, offset, session, url);
        if sent != Uploaded {
          return sent, session.acknowledged;
        }
        NextTile(before, offset, n);
        NextSlice(local.content, offset, n);
        offset := offset + n;
      }
      if err == Broken {
        return Failed, session.acknowledged;
      }
      if err == EOF {
        ended := true;
      }
    }
    assert session.stored == local.content && Tiles(session.acknowledged, size);
    ranges := session.acknowledged;
    outcome := Commit(session, url, digest);
  }

  /** The blob is there, or one of the sessions that expire is used up; the registry stays steady. */
  ghost predicate GoesThrough(registry: BlobRegistry, expiries: nat, outcome: Outcome)
    reads registry
  {
    && registry.Steady()
    && (outcome == Uploaded || (outcome == SessionExpired && expiries > 0))
    && registry.expiries == if expiries > 0 then expiries - 1 else 0
  }

  /** The upload in one request.  The HTTP client reads the file to wherever it gets and may close it, and
      going back to the start for another attempt may fail unnoticed; but only the whole file has the
      declared length.  If the client closes the file then no attempt after the first can succeed. */
  method UploadBlobMonolithic(local: LocalFile, digest: string, registry: BlobRegistry) returns (outcome: Outcome)
    modifies registry
    ensures var blobs, content := old(registry.blobs), local.content;
      registry.blobs == blobs || registry.blobs == blobs[digest := content]
    ensures outcome == Uploaded ==> registry.blobs == old(registry.blobs)[digest := local.content]
    ensures local.readable && old(registry.SteadyWith(MAX_RETRIES)) ==>
      if old(registry.strikes) == 0 || !local.closedBySend then GoesThrough(registry, old(registry.expiries), outcome)
      else outcome == Failed && registry.blobs == old(registry.blobs)
  {
    var started, doomed, notFound := registry.Start();
    if !started {
      return if notFound then SessionExpired else Failed;
    }
    var file := new File(local);
    var closed := false;
    var reply := NoReply;
    ghost var before, strikes, expiries := registry.blobs, registry.strikes, registry.expiries;
    ghost var steady := local.readable && registry.SteadyWith(MAX_RETRIES);
    for attempt := 0 to MAX_RETRIES + 1
      invariant fresh(file) && file.Valid() && file.content == local.content && file.readable == local.readable
      invariant registry.blobs == before || registry.blobs == before[digest := local.content]
      invariant reply.Passing() && registry.expiries == expiries
      invariant attempt == 0 ==> file.pos == 0 && registry.strikes == strikes && !closed && registry.blobs == before
      invariant steady ==> registry.Steady()
      invariant steady && attempt > 0 ==> strikes > 0 && closed == local.closedBySend && registry.blobs == before
      invariant steady && closed ==> reply == NoReply || attempt == 1
      invariant steady && !closed ==> registry.strikes <= MAX_RETRIES - attempt
    {
      if attempt > 0 {
        if !closed {
          var _ := file.Seek(0);
        }
        var tokenRefused := registry.Interrupted();
        if tokenRefused {
          return Failed;
        }
      }
      reply := NoReply;
      if !closed {
        var body := file.Consume();
        assert |body| == |local.content| ==> body == local.content;
        assert steady ==> body == local.content;
        assert before[digest := local.content][digest := local.content] == before[digest := local.content];
        reply := registry.PutWhole(digest, |local.content|, body, doomed);
        closed := local.closedBySend;
      }
      if reply.Reply? && reply.status < 500 {
        return if reply.status == 201 || reply.status == 202 then Uploaded else FailureOf(reply);
      }
    }
    return FailureOf(reply);
  }

  /** How many failures in a row an upload of the file makes up for. */
  function Endurance(local: LocalFile): nat {
    if |local.content| > CHUNKED_THRESHOLD || !local.closedBySend then MAX_RETRIES else 0
  }

  /** The next request fails, and the upload does not make up for it. */
  ghost predicate Stumbles(local: LocalFile, registry: BlobRegistry)
    reads registry
  {
    local.readable && registry.SteadyWith(MAX_RETRIES) && Endurance(local) == 0 && registry.strikes > 0
  }

  /** The whole upload: skip what is already there, choose how to send by the size, start over when the
      session expired.  A registry whose blobs all match their digests keeps that property, and after
      success it holds the file's bytes.  It succeeds unless the file cannot be read or the registry fails more often
      than the upload endures or lets more sessions expire than it starts anew. */
  method UploadBlob(local: LocalFile, registry: BlobRegistry, digestOf: seq<byte> -> string) returns (ok: bool)
    requires forall a, b :: digestOf(a) == digestOf(b) ==> a == b
    requires forall d | d in registry.blobs :: digestOf(registry.blobs[d]) == d
    modifies registry
    ensures forall d | d in registry.blobs :: digestOf(registry.blobs[d]) == d
    ensures registry.blobs.Keys <= old(registry.blobs.Keys) + {digestOf(local.content)} &&
      old(registry.blobs.Keys) <= registry.blobs.Keys
    ensures ok ==> digestOf(local.content) in registry.blobs && registry.blobs[digestOf(local.content)] == local.content
    ensures registry.quality.Steady? && digestOf(local.content) in old(registry.blobs) ==>
      ok && registry.blobs == old(registry.blobs)
    ensures local.readable && old(registry.SteadyWith(Endurance(local))) && old(registry.expiries) <= MAX_UPLOAD_RETRIES
      ==> ok
    ensures digestOf(local.content) !in old(registry.blobs) && old(Stumbles(local, registry)) ==>
        !ok && registry.blobs == old(registry.blobs)
  {
    var digest := digestOf(local.content);
    var known := registry.Head(digest);
    if known {
      return true;
    }
    ghost var steady := local.readable && registry.SteadyWith(Endurance(local)) &&
      registry.expiries <= MAX_UPLOAD_RETRIES;
    for attempt := 0 to MAX_UPLOAD_RETRIES + 1
      invariant forall d | d in registry.blobs :: digestOf(registry.blobs[d]) == d
      invariant registry.blobs.Keys <= old(registry.blobs.Keys) + {digest} &&
        old(registry.blobs.Keys) <= registry.blobs.Keys
      invariant attempt == 0 ==> registry.strikes == old(registry.strikes) && registry.blobs == old(registry.blobs)
      invariant attempt == 0 ==> registry.expiries == old(registry.expiries)
      invariant old(Stumbles(local, registry)) ==> attempt == 0
      invariant steady ==> registry.Steady() && registry.expiries <= MAX_UPLOAD_RETRIES - attempt
    {
      var outcome;
      if |local.content| > CHUNKED_THRESHOLD {
        ghost var ranges;
        outcome, ranges := UploadBlobChunked(local, digest, registry);
      } else {
        outcome := UploadBlobMonolithic(local, digest, registry);
      }
      if outcome == Uploaded {
        return true;
      }
      if outcome != SessionExpired {
        return false;
      }
    }
    return false;
  }
}
