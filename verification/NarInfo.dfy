/** The narinfo text: how it is written, read back, rewritten for a client, and how the file name a
    client then asks for leads back to the blob. */
module NarInfos {
  import opened Wrappers
  import opened Text
  import opened StorePaths
  import opened CacheIndexes
  import opened GcSpec

  datatype Compressor = Zstd | Gzip {
    function Name(): string {
      if Zstd? then "zstd" else "gzip"
    }

    function Extension(): string {
      if Zstd? then ".nar.zst" else ".nar.gz"
    }
  }

  function Decimal(n: nat): string {
    if n < 10 then ["0123456789"[n]] else Decimal(n / 10) + ["0123456789"[n % 10]]
  }

  // ----- writing -----

  datatype PathFacts = PathFacts(
    storePath: string,
    narHash: string,
    narSize: nat,
    fileHash: string,
    fileSize: nat,
    refs: seq<string>,
    sigs: seq<string>,
    compressor: Compressor)

  function Bases(refs: seq<string>): seq<string> {
    seq(|refs|, i requires 0 <= i < |refs| => Base(refs[i]))
  }

  function SigLines(sigs: seq<string>): seq<string> {
    seq(|sigs|, i requires 0 <= i < |sigs| => "Sig: " + sigs[i])
  }

  const URL_LINE: nat := 1

  function HeadLines(f: PathFacts): seq<string> {
    ["StorePath: " + f.storePath,
     "URL: nar/" + GetPathHash(f.storePath) + f.compressor.Extension(),
     "Compression: " + f.compressor.Name(),
     "FileHash: sha256:" + f.fileHash,
     "FileSize: " + Decimal(f.fileSize),
     "NarHash: " + f.narHash,
     "NarSize: " + Decimal(f.narSize)]
  }

  function ReferenceLines(f: PathFacts): seq<string> {
    if f.refs == [] then [] else [REFERENCES_PREFIX + Join(Bases(f.refs), ' ')]
  }

  function NarInfoLines(f: PathFacts): seq<string> {
    HeadLines(f) + ReferenceLines(f) + SigLines(f.sigs)
  }

  function NarInfoText(f: PathFacts): string {
    Join(NarInfoLines(f), '\n') + "\n"
  }

  method GenerateNarInfo(f: PathFacts) returns (text: string)
    ensures text == NarInfoText(f)
  {
    var refBasenames := [];
    for i := 0 to |f.refs|
      invariant refBasenames == Bases(f.refs[..i])
    {
      refBasenames := refBasenames + [Base(f.refs[i])];
    }
    assert f.refs[..|f.refs|] == f.refs;
    var lines := HeadLines(f);
    if |refBasenames| > 0 {
      lines := lines + [REFERENCES_PREFIX + Join(refBasenames, ' ')];
    }
    ghost var before := lines;
    for i := 0 to |f.sigs|
      invariant lines == before + SigLines(f.sigs[..i])
    {
      assert f.sigs[..i + 1] == f.sigs[..i] + [f.sigs[i]];
      lines := lines + ["Sig: " + f.sigs[i]];
    }
    assert f.sigs[..|f.sigs|] == f.sigs;
    assert before == HeadLines(f) + ReferenceLines(f);
    text := Join(lines, '\n') + "\n";
  }

  // ----- lines of a generated text -----

  predicate OneLine(s: string) {
    Free(s, {'\n'})
  }

  /** What a caller passes for a real store object: no field holds a line break and the references
      are store paths. */
  predicate WellFormed(f: PathFacts) {
    && OneLine(f.storePath) && OneLine(f.narHash) && OneLine(f.fileHash)
    && (forall i | 0 <= i < |f.refs| :: StoreReference(f.refs[i]))
    && (forall i | 0 <= i < |f.sigs| :: OneLine(f.sigs[i]))
  }

  lemma {:induction false} DecimalOneLine(n: nat)
    ensures OneLine(Decimal(n))
  {
    if n >= 10 {
      DecimalOneLine(n / 10);
    }
  }

  lemma {:induction false} JoinFree(parts: seq<string>, sep: char, seps: set<char>)
    requires AllFree(parts, seps) && sep !in seps
    ensures Free(Join(parts, sep), seps)
  {
    if |parts| > 1 {
      JoinFree(parts[1..], sep, seps);
    }
  }

  lemma BasesOfReferences(refs: seq<string>)
    requires forall i | 0 <= i < |refs| :: StoreReference(refs[i])
    ensures forall i | 0 <= i < |refs| :: StoreName(Bases(refs)[i]) && refs[i] == STORE_DIR + Bases(refs)[i]
  {
    forall i | 0 <= i < |refs| ensures StoreName(Bases(refs)[i]) && refs[i] == STORE_DIR + Bases(refs)[i] {
      var name := refs[i][|STORE_DIR|..];
      assert refs[i] == STORE_DIR + name;
      BaseOfStorePath(name);
    }
  }

  lemma BaseOneLine(path: string)
    requires OneLine(path)
    ensures OneLine(Base(path))
  {
    TrimmedIsPrefix(path);
    var t := TrimRightSlashes(path);
    JoinSplit(t, '/');
    LastPieceWithin(Split(t, {'/'}), '/');
  }

  lemma {:induction false} TrimmedIsPrefix(s: string)
    ensures TrimRightSlashes(s) <= s
  {
    if s != "" && s[|s| - 1] == '/' {
      TrimmedIsPrefix(s[..|s| - 1]);
    }
  }

  lemma {:induction false} LastPieceWithin(parts: seq<string>, sep: char)
    requires |parts| > 0
    ensures HasSuffix(Join(parts, sep), parts[|parts| - 1])
  {
    if |parts| > 1 {
      LastPieceWithin(parts[1..], sep);
    }
  }

  lemma HeadOneLine(f: PathFacts)
    requires WellFormed(f)
    ensures AllFree(HeadLines(f), {'\n'})
  {
    DecimalOneLine(f.fileSize);
    DecimalOneLine(f.narSize);
    BaseOneLine(f.storePath);
    OneLineAfter("StorePath: ", f.storePath);
    OneLineAfter("URL: nar/", GetPathHash(f.storePath));
    OneLineAfter("FileHash: sha256:", f.fileHash);
    OneLineAfter("FileSize: ", Decimal(f.fileSize));
    OneLineAfter("NarHash: ", f.narHash);
    OneLineAfter("NarSize: ", Decimal(f.narSize));
    var lines := HeadLines(f);
    OneLineAfter("URL: nar/" + GetPathHash(f.storePath), f.compressor.Extension());
    OneLineAfter("Compression: ", f.compressor.Name());
    assert OneLine(lines[0]) && OneLine(lines[1]) && OneLine(lines[2]) && OneLine(lines[3]);
    assert OneLine(lines[4]) && OneLine(lines[5]) && OneLine(lines[6]);
  }

  lemma OneLineAfter(prefix: string, s: string)
    requires OneLine(prefix) && OneLine(s)
    ensures OneLine(prefix + s)
  {
  }

  lemma ReferencesOneLine(f: PathFacts)
    requires WellFormed(f)
    ensures AllFree(ReferenceLines(f), {'\n'})
  {
    BasesOfReferences(f.refs);
    assert '\n' in WHITESPACE;
    JoinFree(Bases(f.refs), ' ', {'\n'});
  }

  lemma GeneratedOneLine(f: PathFacts)
    requires WellFormed(f)
    ensures AllFree(NarInfoLines(f), {'\n'})
  {
    HeadOneLine(f);
    ReferencesOneLine(f);
    assert AllFree(SigLines(f.sigs), {'\n'});
  }

  lemma {:induction false} JoinWithFinalBreak(lines: seq<string>, sep: char)
    requires |lines| > 0
    ensures Join(lines + [""], sep) == Join(lines, sep) + [sep]
  {
    var all := lines + [""];
    if |lines| == 1 {
      assert all[1..] == [""];
    } else {
      assert all[1..] == lines[1..] + [""];
      JoinWithFinalBreak(lines[1..], sep);
    }
  }

  lemma LinesOfGenerated(f: PathFacts)
    requires WellFormed(f)
    ensures Split(NarInfoText(f), {'\n'}) == NarInfoLines(f) + [""]
  {
    var lines := NarInfoLines(f);
    GeneratedOneLine(f);
    JoinWithFinalBreak(lines, '\n');
    SplitJoin(lines + [""], '\n', {'\n'});
  }

  // ----- reading a field back -----

  /** What stands behind `key` on the first line that begins with it. */
  function Field(lines: seq<string>, key: string): Option<string> {
    if lines == [] then None
    else if HasPrefix(lines[0], key) then Some(lines[0][|key|..])
    else Field(lines[1..], key)
  }

  /** What stands behind `key` on all lines that begin with it. */
  function AllFields(lines: seq<string>, key: string): seq<string> {
    if lines == [] then []
    else (if HasPrefix(lines[0], key) then [lines[0][|key|..]] else []) + AllFields(lines[1..], key)
  }

  lemma {:induction false} FieldAt(lines: seq<string>, i: nat, key: string, value: string)
    requires i < |lines| && lines[i] == key + value
    requires forall j | 0 <= j < i :: !HasPrefix(lines[j], key)
    ensures Field(lines, key) == Some(value)
  {
    if i > 0 {
      FieldAt(lines[1..], i - 1, key, value);
    }
  }

  lemma {:induction false} AllFieldsOfParts(a: seq<string>, b: seq<string>, key: string)
    ensures AllFields(a + b, key) == AllFields(a, key) + AllFields(b, key)
  {
    if a == [] {
      assert a + b == b;
    } else {
      assert (a + b)[1..] == a[1..] + b;
      AllFieldsOfParts(a[1..], b, key);
    }
  }

  lemma {:induction false} NoFields(lines: seq<string>, key: string)
    requires forall i | 0 <= i < |lines| :: !HasPrefix(lines[i], key)
    ensures AllFields(lines, key) == []
  {
    if lines != [] {
      NoFields(lines[1..], key);
    }
  }

  lemma {:induction false} SigFields(sigs: seq<string>)
    ensures AllFields(SigLines(sigs), "Sig: ") == sigs
  {
    if sigs != [] {
      assert SigLines(sigs)[0] == "Sig: " + sigs[0] && SigLines(sigs)[1..] == SigLines(sigs[1..]);
      SigFields(sigs[1..]);
    }
  }

  /** The number that decimal digits stand for. */
  function Value(digits: string): int {
    if digits == "" then 0
    else 10 * Value(digits[..|digits| - 1]) + (digits[|digits| - 1] as int - '0' as int)
  }

  lemma {:induction false} DecimalValue(n: nat)
    ensures Value(Decimal(n)) == n
  {
    if n < 10 {
      DigitValue(n);
      assert Decimal(n)[..0] == "";
    } else {
      DecimalValue(n / 10);
      DigitValue(n % 10);
      assert Decimal(n)[..|Decimal(n)| - 1] == Decimal(n / 10);
    }
  }

  lemma DigitValue(d: nat)
    requires d < 10
    ensures "0123456789"[d] as int - '0' as int == d
  {
  }

  /** Every field of a generated text can be read back, and is what the facts say. */
  lemma FieldsRoundTrip(f: PathFacts)
    requires WellFormed(f)
    ensures var lines := Split(NarInfoText(f), {'\n'});
      && Field(lines, "StorePath: ") == Some(f.storePath)
      && Field(lines, "URL: ") ==
           Some("nar/" + GetPathHash(f.storePath) + if f.compressor.Zstd? then ".nar.zst" else ".nar.gz")
      && Field(lines, "Compression: ") == Some(if f.compressor.Zstd? then "zstd" else "gzip")
      && Field(lines, "FileHash: sha256:") == Some(f.fileHash)
      && Field(lines, "FileSize: ") == Some(Decimal(f.fileSize)) && Value(Decimal(f.fileSize)) == f.fileSize
      && Field(lines, "NarHash: ") == Some(f.narHash)
      && Field(lines, "NarSize: ") == Some(Decimal(f.narSize)) && Value(Decimal(f.narSize)) == f.narSize
  {
    DecimalValue(f.fileSize);
    DecimalValue(f.narSize);
    var rest := ReferenceLines(f) + SigLines(f.sigs) + [""];
    LinesInParts(f);
    HeadFieldRead(f, rest, 0);
    HeadFieldRead(f, rest, 1);
    HeadFieldRead(f, rest, 2);
    HeadFieldRead(f, rest, 3);
    HeadFieldRead(f, rest, 4);
    HeadFieldRead(f, rest, 5);
    HeadFieldRead(f, rest, 6);
  }

  lemma LinesInParts(f: PathFacts)
    requires WellFormed(f)
    ensures Split(NarInfoText(f), {'\n'}) == HeadLines(f) + (ReferenceLines(f) + SigLines(f.sigs) + [""])
  {
    LinesOfGenerated(f);
    assert NarInfoLines(f) + [""] == HeadLines(f) + (ReferenceLines(f) + SigLines(f.sigs) + [""]);
  }

  /** The key of a line of the head, and what stands behind it. */
  function HeadKey(i: nat): string {
    match i
    case 0 => "StorePath: "
    case 1 => "URL: "
    case 2 => "Compression: "
    case 3 => "FileHash: sha256:"
    case 4 => "FileSize: "
    case 5 => "NarHash: "
    case _ => "NarSize: "
  }

  function HeadValue(f: PathFacts, i: nat): string {
    match i
    case 0 => f.storePath
    case 1 => "nar/" + GetPathHash(f.storePath) + f.compressor.Extension()
    case 2 => f.compressor.Name()
    case 3 => f.fileHash
    case 4 => Decimal(f.fileSize)
    case 5 => f.narHash
    case _ => Decimal(f.narSize)
  }

  lemma HeadLine(f: PathFacts, i: nat)
    requires i < |HeadLines(f)|
    ensures HeadLines(f)[i] == HeadKey(i) + HeadValue(f, i)
  {
    if i == 1 {
      assert "URL: nar/" == "URL: " + "nar/";
    }
  }

  lemma KeysDiffer(i: nat, j: nat, value: string)
    requires i < j < 7
    ensures !HasPrefix(HeadKey(i) + value, HeadKey(j))
  {
    var line, key := HeadKey(i) + value, HeadKey(j);
    assert line[0] != key[0] || (i == 3 && j == 4 && line[4] != key[4]) || (i == 5 && j == 6 && line[3] != key[3]);
  }

  lemma HeadFieldRead(f: PathFacts, rest: seq<string>, j: nat)
    requires j < |HeadLines(f)| == 7
    ensures Field(HeadLines(f) + rest, HeadKey(j)) == Some(HeadValue(f, j))
  {
    var lines := HeadLines(f) + rest;
    forall i | 0 <= i < j ensures !HasPrefix(lines[i], HeadKey(j)) {
      HeadLine(f, i);
      KeysDiffer(i, j, HeadValue(f, i));
    }
    HeadLine(f, j);
    FieldAt(lines, j, HeadKey(j), HeadValue(f, j));
  }

  /** And so can the signatures, in order. */
  lemma SignaturesRoundTrip(f: PathFacts)
    requires WellFormed(f)
    ensures AllFields(Split(NarInfoText(f), {'\n'}), "Sig: ") == f.sigs
  {
    LinesOfGenerated(f);
    var front := HeadLines(f) + ReferenceLines(f);
    assert NarInfoLines(f) + [""] == front + (SigLines(f.sigs) + [""]);
    AllFieldsOfParts(front, SigLines(f.sigs) + [""], "Sig: ");
    AllFieldsOfParts(SigLines(f.sigs), [""], "Sig: ");
    NoSigsBefore(f);
    NoFields(front, "Sig: ");
    NoFields([""], "Sig: ");
    SigFields(f.sigs);
  }

  lemma NoSigsBefore(f: PathFacts)
    ensures var front := HeadLines(f) + ReferenceLines(f);
      forall i | 0 <= i < |front| :: !HasPrefix(front[i], "Sig: ")
  {
    var front, head := HeadLines(f) + ReferenceLines(f), HeadLines(f);
    assert head[0][1] == 't' && head[1][1] == 'R' && head[2][1] == 'o' && head[3][1] == 'i' && head[3][0] == 'F';
    assert head[4][0] == 'F' && head[5][1] == 'a' && head[6][1] == 'a';
    forall i | 0 <= i < |front| ensures !HasPrefix(front[i], "Sig: ") {
      assert front[i] == if i < 7 then head[i] else ReferenceLines(f)[i - 7];
    }
  }

  // ----- reading the references back -----

  lemma {:induction false} SkipLines(head: seq<string>, tail: seq<string>)
    requires forall i | 0 <= i < |head| :: !HasPrefix(head[i], REFERENCES_PREFIX)
    ensures ReferencesOfLines(head + tail) == ReferencesOfLines(tail)
  {
    if head == [] {
      assert head + tail == tail;
    } else {
      assert (head + tail)[1..] == head[1..] + tail;
      SkipLines(head[1..], tail);
    }
  }

  lemma ReferenceLineRead(refs: seq<string>)
    requires forall i | 0 <= i < |refs| :: StoreReference(refs[i])
    ensures ReferencesOfLine(REFERENCES_PREFIX + Join(Bases(refs), ' ')) == refs
  {
    BasesOfReferences(refs);
    FieldsOfJoin(Bases(refs));
    var line := REFERENCES_PREFIX + Join(Bases(refs), ' ');
    assert TrimPrefix(line, REFERENCES_PREFIX) == Join(Bases(refs), ' ');
    assert InStore(Bases(refs)) == refs;
  }

  /** Reading the references out of a generated text gives them back, in order. */
  lemma ReferencesRoundTrip(f: PathFacts)
    requires WellFormed(f)
    ensures ReferencesOfNarInfo(NarInfoText(f)) == f.refs
  {
    LinesOfGenerated(f);
    var rest := SigLines(f.sigs) + [""];
    assert NarInfoLines(f) + [""] == HeadLines(f) + (ReferenceLines(f) + rest);
    HeadHasNoReferences(f);
    SkipLines(HeadLines(f), ReferenceLines(f) + rest);
    if f.refs == [] {
      assert ReferenceLines(f) + rest == rest + [];
      NoReferencesAfter(f.sigs);
      SkipLines(rest, []);
    } else {
      ReferenceLineRead(f.refs);
    }
  }

  lemma HeadHasNoReferences(f: PathFacts)
    ensures forall i | 0 <= i < |HeadLines(f)| :: !HasPrefix(HeadLines(f)[i], REFERENCES_PREFIX)
  {
    forall i | 0 <= i < |HeadLines(f)| ensures !HasPrefix(HeadLines(f)[i], REFERENCES_PREFIX) {
      assert HeadLines(f)[i][0] != REFERENCES_PREFIX[0];
    }
  }

  lemma NoReferencesAfter(sigs: seq<string>)
    ensures var rest := SigLines(sigs) + [""];
            forall i | 0 <= i < |rest| :: !HasPrefix(rest[i], REFERENCES_PREFIX)
  {
    var rest := SigLines(sigs) + [""];
    forall i | 0 <= i < |rest| ensures !HasPrefix(rest[i], REFERENCES_PREFIX) {
      if i < |sigs| {
        assert rest[i][0] != REFERENCES_PREFIX[0];
      }
    }
  }

  /** An entry as it was published, and as version 1 recorded it: without its list of references. */
  ghost predicate LostReferences(f: PathFacts, published: IndexItem, recorded: IndexItem) {
    && WellFormed(f) && published.references == f.refs && published.narInfo == NarInfoText(f)
    && recorded == published.(references := [])
  }

  lemma ReferencesRestored(f: PathFacts, published: IndexItem, recorded: IndexItem)
    requires LostReferences(f, published, recorded)
    ensures UpgradedItem(recorded).references == published.references
  {
    ReferencesRoundTrip(f);
    assert NarInfoText(f) != "";
  }

  ghost predicate AllLostReferences(published: Entries, facts: map<string, PathFacts>, recorded: Entries) {
    && published.Keys == facts.Keys == recorded.Keys
    && forall h | h in published :: LostReferences(facts[h], published[h], recorded[h])
  }

  lemma RestoredAt(published: Entries, facts: map<string, PathFacts>, recorded: Entries, h: string)
    requires AllLostReferences(published, facts, recorded) && h in published
    ensures UpgradedEntries(recorded)[h].references == published[h].references
  {
    ReferencesRestored(facts[h], published[h], recorded[h]);
  }

  /** An index whose entries lost their reference lists gets its reference graph back from the narinfo
      texts. */
  lemma UpgradeRestoresGraph(published: Entries, facts: map<string, PathFacts>, recorded: Entries)
    requires AllLostReferences(published, facts, recorded)
    ensures RefGraph(UpgradedEntries(recorded)) == RefGraph(published)
  {
    AllRestored(published, facts, recorded);
    SameReferencesSameGraph(UpgradedEntries(recorded), published);
  }

  ghost predicate SameReferences(a: Entries, b: Entries) {
    a.Keys == b.Keys && forall h | h in a :: a[h].references == b[h].references
  }

  lemma AllRestored(published: Entries, facts: map<string, PathFacts>, recorded: Entries)
    requires AllLostReferences(published, facts, recorded)
    ensures SameReferences(UpgradedEntries(recorded), published)
  {
    forall h | h in published ensures UpgradedEntries(recorded)[h].references == published[h].references {
      RestoredAt(published, facts, recorded, h);
    }
  }

  lemma SameReferencesSameGraph(a: Entries, b: Entries)
    requires SameReferences(a, b)
    ensures RefGraph(a) == RefGraph(b)
  {
  }

  // ----- rewriting the URL for a client -----

  const URL_PREFIX := "URL: "

  /** The position of the first URL line, or the number of lines without one. */
  function FirstUrl(lines: seq<string>): (i: nat)
    ensures i <= |lines|
    ensures i < |lines| ==> HasPrefix(lines[i], URL_PREFIX)
    ensures forall j | 0 <= j < i :: !HasPrefix(lines[j], URL_PREFIX)
  {
    if lines == [] || HasPrefix(lines[0], URL_PREFIX) then 0 else 1 + FirstUrl(lines[1..])
  }

  function KeptExtension(line: string): string {
    if HasSuffix(line, ".nar.zst") then ".nar.zst" else ".nar.gz"
  }

  function FileName(digest: string, line: string): string {
    digest + KeptExtension(line)
  }

  function RewrittenLines(lines: seq<string>, digest: string): seq<string> {
    var i := FirstUrl(lines);
    if i < |lines| then lines[i := "URL: nar/" + FileName(digest, lines[i])] else lines
  }

  lemma RewrittenAt(lines: seq<string>, i: nat, digest: string, ext: string)
    requires i < |lines| && HasPrefix(lines[i], URL_PREFIX) && ext == KeptExtension(lines[i])
    requires forall j | 0 <= j < i :: !HasPrefix(lines[j], URL_PREFIX)
    ensures RewrittenLines(lines, digest) == lines[i := "URL: nar/" + digest + ext]
  {
    assert FirstUrl(lines) == i;
    assert "URL: nar/" + digest + ext == "URL: nar/" + (digest + ext);
  }

  method RewriteNarInfoURL(entry: IndexItem) returns (text: string)
    ensures text == if entry.narInfo == "" then "" else Join(RewrittenLines(Split(entry.narInfo, {'\n'}),
      entry.narDigest), '\n')
  {
    var narinfo := entry.narInfo;
    if narinfo == "" {
      return "";
    }
    var digest := entry.narDigest;
    var lines := Split(narinfo, {'\n'});
    var i := 0;
    while i < |lines|
      invariant 0 <= i <= |lines| && lines == Split(narinfo, {'\n'})
      invariant forall j | 0 <= j < i :: !HasPrefix(lines[j], URL_PREFIX)
    {
      if HasPrefix(lines[i], URL_PREFIX) {
        var ext := ".nar.gz";
        if HasSuffix(lines[i], ".nar.zst") {
          ext := ".nar.zst";
        }
        RewrittenAt(lines, i, digest, ext);
        lines := lines[i := "URL: nar/" + digest + ext];
        break;
      }
      i := i + 1;
    }
    text := Join(lines, '\n');
  }

  /** A client that splits the rewritten text sees the original lines, except that the first URL line
      names the blob's digest; the extension is the one the line had exactly when that is one of the
      two the publisher writes. */
  lemma RewriteChangesOnlyUrl(entry: IndexItem)
    requires entry.narInfo != "" && OneLine(entry.narDigest)
    ensures var lines := Split(entry.narInfo, {'\n'});
      var seen := Split(Join(RewrittenLines(lines, entry.narDigest), '\n'), {'\n'});
      var url := FirstUrl(lines);
      && |seen| == |lines|
      && (forall j | 0 <= j < |lines| && j != url :: seen[j] == lines[j])
      && (url < |lines| ==> exists ext | ext == ".nar.zst" || ext == ".nar.gz" ::
            && seen[url] == "URL: nar/" + (entry.narDigest + ext)
            && (HasSuffix(lines[url], ext) <==> HasSuffix(lines[url], ".nar.zst") || HasSuffix(lines[url], ".nar.gz")))
  {
    var lines := Split(entry.narInfo, {'\n'});
    var url := FirstUrl(lines);
    SplitPiecesFree(entry.narInfo, {'\n'});
    SplitJoin(RewrittenLines(lines, entry.narDigest), '\n', {'\n'});
    if url < |lines| {
      var ext := KeptExtension(lines[url]);
      assert RewrittenLines(lines, entry.narDigest)[url] == "URL: nar/" + (entry.narDigest + ext);
    }
  }

  /** For a generated text that is the second line and the publisher's own extension. */
  lemma RewriteOfGenerated(f: PathFacts, digest: string)
    requires WellFormed(f)
    ensures var lines := Split(NarInfoText(f), {'\n'});
      |lines| > URL_LINE &&
      RewrittenLines(lines, digest) == lines[URL_LINE := "URL: nar/" + (digest + f.compressor.Extension())]
  {
    LinesOfGenerated(f);
    var lines := Split(NarInfoText(f), {'\n'});
    var ext := f.compressor.Extension();
    var line := lines[URL_LINE];
    assert lines[0][0] != URL_PREFIX[0];
    assert line == "URL: nar/" + GetPathHash(f.storePath) + ext;
    assert HasPrefix(line, URL_PREFIX);
    assert FirstUrl(lines) == URL_LINE;
    assert line[|line| - |ext|..] == ext;
    assert f.compressor.Gzip? ==> line[|line| - 1] != ".nar.zst"[7];
  }

  // ----- from the file name back to the blob -----

  function ResolveNarDigest(entries: Entries, filename: string): Option<string> {
    var digest := Split(filename, {'.'})[0];
    if |digest| == 64 then Some(SHA256_PREFIX + digest)
    else if |digest| == 32 && digest in entries then Some(SHA256_PREFIX + entries[digest].narDigest)
    else None
  }

  lemma BeforeDot(stem: string, ext: string)
    requires Free(stem, {'.'}) && ext != "" && ext[0] == '.'
    ensures Split(stem + ext, {'.'})[0] == stem
  {
    assert stem + ext == stem + ['.'] + ext[1..];
    SplitAtFirst(stem, '.', ext[1..], {'.'});
  }

  lemma HashResolves(entries: Entries, hash: string, ext: string)
    requires |hash| == 32 && Free(hash, {'.'}) && hash in entries && ext != "" && ext[0] == '.'
    ensures ResolveNarDigest(entries, hash + ext) == Some(SHA256_PREFIX + entries[hash].narDigest)
  {
    BeforeDot(hash, ext);
  }

  lemma DigestResolves(entries: Entries, digest: string, ext: string)
    requires |digest| == 64 && Free(digest, {'.'}) && ext != "" && ext[0] == '.'
    ensures ResolveNarDigest(entries, digest + ext) == Some(SHA256_PREFIX + digest)
  {
    BeforeDot(digest, ext);
  }

  /** Both file names under which an entry is offered, the publisher's and the rewritten one, resolve
      to the entry's own blob. */
  lemma OfferedFilesResolve(entries: Entries, f: PathFacts)
    requires WellFormed(f) && IsNixHash(GetPathHash(f.storePath)) && GetPathHash(f.storePath) in entries
    requires var entry := entries[GetPathHash(f.storePath)];
      entry.narInfo == NarInfoText(f) && |entry.narDigest| == 64 && Free(entry.narDigest, {'.', '\n'})
    ensures var entry := entries[GetPathHash(f.storePath)];
      var lines := Split(entry.narInfo, {'\n'});
      var served := RewrittenLines(lines, entry.narDigest);
      && |served| == |lines| > URL_LINE
      && HasPrefix(lines[URL_LINE], "URL: nar/") && HasPrefix(served[URL_LINE], "URL: nar/")
      && ResolveNarDigest(entries, TrimPrefix(lines[URL_LINE], "URL: nar/")) == Some(SHA256_PREFIX + entry.narDigest)
      && ResolveNarDigest(entries, TrimPrefix(served[URL_LINE], "URL: nar/")) == Some(SHA256_PREFIX + entry.narDigest)
  {
    var hash, ext := GetPathHash(f.storePath), f.compressor.Extension();
    var entry := entries[hash];
    LinesOfGenerated(f);
    RewriteOfGenerated(f, entry.narDigest);
    var lines := Split(entry.narInfo, {'\n'});
    assert lines[URL_LINE] == "URL: nar/" + (hash + ext);
    assert TrimPrefix(lines[URL_LINE], "URL: nar/") == hash + ext;
    var served := RewrittenLines(lines, entry.narDigest);
    assert TrimPrefix(served[URL_LINE], "URL: nar/") == entry.narDigest + ext;
    HashHasNoDot(hash);
    HashResolves(entries, hash, ext);
    DigestResolves(entries, entry.narDigest, ext);
  }

  lemma HashHasNoDot(hash: string)
    requires IsNixHash(hash)
    ensures Free(hash, {'.'})
  {
    assert '.' !in NIX_ALPHABET;
  }
}
