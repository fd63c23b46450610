/**
 * Memory creation in the SDK: the hot-phrase table and its first-match
 * lookup, and the remote-first, local-fallback write of a memory record.
 * The HTTP round trip, the clock and the local file are parameters: `Io`
 * fixes what they do for one call, and the local file is the sequence of
 * entries appended to it.
 */
module Memory {
  import opened Wrappers
  import PyText
  import Json

  /**
   * The fields of `MemoryConfig` that decide what a write does. The API key
   * and the base URL only configure the HTTP client, and the file name only
   * names the local file; the reply and the file are parameters here.
   */
  datatype MemoryConfig = MemoryConfig(userId: string, localStorage: bool)

  // ---------------------------------------------------------------------
  // Hot phrases

  /** `HOT_PHRASES`: (phrase, category) pairs in declaration order, which decides ties. */
  const HotPhrases: seq<(string, string)> := [
    ("note this", "note"),
    ("remember this", "note"),
    ("important", "important"),
    ("idea", "idea"),
    ("todo", "todo"),
    ("remind me", "reminder"),
    ("save this", "note")
  ]

  /** The `j`-th table phrase occurs in `text`. */
  predicate PhraseIn(text: string, j: int)
    requires 0 <= j < |HotPhrases|
  {
    PyText.Contains(text, HotPhrases[j].0)
  }

  /** Phrase `j` occurs in `text` and no earlier phrase does. */
  predicate IsFirstMatch(text: string, j: int)
  {
    && 0 <= j < |HotPhrases|
    && PhraseIn(text, j)
    && forall i :: 0 <= i < j ==> !PhraseIn(text, i)
  }

  /** Index of the first table phrase at or after `from` that occurs in `text`, or the table length. */
  function FirstMatchFrom(text: string, from: nat): (k: nat)
    requires from <= |HotPhrases|
    ensures from <= k <= |HotPhrases|
    ensures k < |HotPhrases| ==> PhraseIn(text, k)
    ensures forall j :: from <= j < k ==> !PhraseIn(text, j)
    decreases |HotPhrases| - from
  {
    if from == |HotPhrases| then from
    else if PhraseIn(text, from) then from
    else FirstMatchFrom(text, from + 1)
  }

  /**
   * `detect_hot_phrase(transcript)`: the category of the first phrase, in
   * table order, that is a substring of the lower-cased transcript.
   */
  function DetectHotPhrase(transcript: string): (category: Option<string>)
    ensures category.None? <==>
      forall j :: 0 <= j < |HotPhrases| ==> !PhraseIn(PyText.Lower(transcript), j)
    ensures category.Some? ==>
      exists j :: IsFirstMatch(PyText.Lower(transcript), j) && category.value == HotPhrases[j].1
  {
    var text := PyText.Lower(transcript);
    var k := FirstMatchFrom(text, 0);
    if k < |HotPhrases| then Some(HotPhrases[k].1) else None
  }

  /** Every category `DetectHotPhrase` returns is a non-empty table category, so Python's `if category:` holds. */
  lemma DetectedCategoryTruthy(transcript: string)
    ensures DetectHotPhrase(transcript).Some? ==> DetectHotPhrase(transcript).value != []
  {
  }

  /** "Hey, note this important information" holds two phrases; the earlier table entry decides. */
  lemma DetectNoteBeforeImportant()
    ensures DetectHotPhrase("Hey, note this important information") == Some("note")
  {
    var a := PyText.Lower("Hey, note this important information");
    assert a[5..14] == "note this" by {
      assert a[5] == 'n' && a[6] == 'o' && a[7] == 't' && a[8] == 'e' && a[9] == ' ';
      assert a[10] == 't' && a[11] == 'h' && a[12] == 'i' && a[13] == 's';
    }
    assert PyText.OccursAt(a, "note this", 5);
  }

  // ---------------------------------------------------------------------
  // The memory record and the remote payload

  /** The `memory_data` dict built by `create_memory`. */
  datatype MemoryData = MemoryData(
    text: string,
    userId: string,
    textSource: string,
    category: string,
    createdAt: string,
    metadata: map<string, Json.Value>)

  const TextSource := "audio_transcript"
  const SourceSpecPrefix := "omi_sdk_"

  datatype Geolocation = Geolocation(latitude: Json.Value, longitude: Json.Value)

  /** The JSON body posted to `create_omi_conversation`. */
  datatype McpPayload = McpPayload(
    text: string,
    userId: string,
    textSource: string,
    textSourceSpec: string,
    startedAt: string,
    finishedAt: string,
    geolocation: Option<Geolocation>)

  /** The record `create_memory` prepares; missing or empty metadata becomes `{}`. */
  function NewMemoryData(config: MemoryConfig, transcript: string, category: string,
                         metadata: Option<map<string, Json.Value>>, now: string): (d: MemoryData)
    ensures d.text == transcript && d.category == category
    ensures d.userId == config.userId
    ensures d.textSource == TextSource
    ensures d.createdAt == now
    ensures metadata.None? ==> d.metadata == map[]
    ensures metadata.Some? ==> d.metadata == metadata.value
  {
    MemoryData(transcript, config.userId, TextSource, category, now, metadata.GetOr(map[]))
  }

  /**
   * The payload-building part of `_create_via_mcp`. `None` is the exception
   * raised when the `location` entry is not a dict: `in` on `None`, a bool
   * or a number, or indexing a list or string that happens to contain both
   * key names.
   */
  function BuildPayload(d: MemoryData): (p: Option<McpPayload>)
    ensures p.Some? ==>
      && p.value.text == d.text
      && p.value.userId == d.userId
      && p.value.textSource == d.textSource
      && p.value.textSourceSpec == SourceSpecPrefix + d.category
      && p.value.startedAt == d.createdAt
      && p.value.finishedAt == d.createdAt
    ensures p.Some? && p.value.geolocation.Some? <==>
      && "location" in d.metadata
      && d.metadata["location"].Obj?
      && "latitude" in d.metadata["location"].fields
      && "longitude" in d.metadata["location"].fields
    ensures p.Some? && p.value.geolocation.Some? ==>
      p.value.geolocation.value == Geolocation(d.metadata["location"].fields["latitude"],
                                               d.metadata["location"].fields["longitude"])
    ensures p.None? ==> "location" in d.metadata && !d.metadata["location"].Obj?
  {
    var base := McpPayload(d.text, d.userId, d.textSource, SourceSpecPrefix + d.category,
                           d.createdAt, d.createdAt, None);
    if "location" !in d.metadata then Some(base)
    else
      var location := d.metadata["location"];
      match Json.In("latitude", location)
      case None => None
      case Some(false) => Some(base)
      case Some(true) =>
        match Json.In("longitude", location)
        case None => None
        case Some(false) => Some(base)
        case Some(true) =>
          match (Json.Get(location, "latitude"), Json.Get(location, "longitude"))
          case (Some(lat), Some(lon)) => Some(base.(geolocation := Some(Geolocation(lat, lon))))
          case _ => None
  }

  /** What the POST does: raise (network error, timeout), or return a status and a body that may or may not be JSON. */
  datatype Reply = ConnectionError | Response(status: int, json: Option<Json.Value>)

  /** The environment of one memory write: the clock, the remote reply, whether the file append succeeds, and Python's `repr` of the metadata. */
  datatype Io = Io(
    now: string,
    reply: Reply,
    appendOk: bool,
    metadataRepr: map<string, Json.Value> -> string)

  datatype McpResult = McpResult(ok: bool, posted: Option<McpPayload>)

  /**
   * `_create_via_mcp`: posts the payload when it can be built. Success needs
   * status 200 and a body that `response.json()` parses to a dict, on which
   * `result.get('id', ...)` is called; anything else returns False.
   */
  function CreateViaMcp(d: MemoryData, reply: Reply): (r: McpResult)
    ensures r.posted == BuildPayload(d)
    ensures r.ok <==>
      && BuildPayload(d).Some?
      && reply.Response? && reply.status == 200
      && reply.json.Some? && reply.json.value.Obj?
  {
    match BuildPayload(d)
    case None => McpResult(false, None)
    case Some(payload) =>
      match reply
      case ConnectionError => McpResult(false, Some(payload))
      case Response(status, json) =>
        if status == 200 then
          match json
          case Some(Obj(_)) => McpResult(true, Some(payload))
          case _ => McpResult(false, Some(payload))
        else McpResult(false, Some(payload))
  }

  // ---------------------------------------------------------------------
  // The local fallback file

  const EntryHeader := "--- Memory Entry ---"
  const EntryFooter := "--- End Entry ---"

  /**
   * The string `_store_locally`'s f-string builds, before the text-mode
   * file applies any newline translation on write.
   */
  function FormatEntry(timestamp: string, category: string, text: string, metadata: string): (r: string)
    ensures |r| == |timestamp| + |category| + |text| + |metadata| + 81
    ensures r[..22] == "\n" + EntryHeader + "\n"
    ensures r[|r| - 18..] == EntryFooter + "\n"
  {
    "\n" + EntryHeader + "\n"
    + "Timestamp: " + timestamp + "\n"
    + "Category: " + category + "\n"
    + "Text: " + text + "\n"
    + "Metadata: " + metadata + "\n"
    + EntryFooter + "\n"
  }

  /** The lines of an entry, in the order they are written. */
  function EntryLines(timestamp: string, category: string, text: string, metadata: string): seq<string>
  {
    ["", EntryHeader, "Timestamp: " + timestamp, "Category: " + category,
     "Text: " + text, "Metadata: " + metadata, EntryFooter, ""]
  }

  datatype EntryFields = EntryFields(timestamp: string, category: string, text: string, metadata: string)

  function DropPrefix(prefix: string, line: string): Option<string>
  {
    if |prefix| <= |line| && line[..|prefix|] == prefix then Some(line[|prefix|..]) else None
  }

  /** Reads one entry block back into its four fields. */
  function ParseEntry(entry: string): Option<EntryFields>
  {
    var ls := PyText.Split(entry, '\n');
    if |ls| != 8 || ls[0] != "" || ls[1] != EntryHeader || ls[6] != EntryFooter || ls[7] != "" then None
    else
      match (DropPrefix("Timestamp: ", ls[2]), DropPrefix("Category: ", ls[3]),
             DropPrefix("Text: ", ls[4]), DropPrefix("Metadata: ", ls[5]))
      case (Some(ts), Some(c), Some(t), Some(m)) => Some(EntryFields(ts, c, t, m))
      case _ => None
  }

  /** Adding one line to an entry under construction: `acc + "\n" + (tag + value)`. */
  lemma AddLine(lines: seq<string>, acc: string, tag: string, value: string)
    requires |lines| >= 1 && PyText.Join(lines, '\n') == acc
    ensures PyText.Join(lines + [tag + value], '\n') == acc + "\n" + tag + value
  {
    PyText.JoinSnoc(lines, tag + value, '\n');
  }

  /** The entry block is its lines joined by newlines. */
  lemma FormatIsJoin(timestamp: string, category: string, text: string, metadata: string)
    ensures FormatEntry(timestamp, category, text, metadata)
      == PyText.Join(EntryLines(timestamp, category, text, metadata), '\n')
  {
    var l0: seq<string> := [""];
    var l1 := l0 + [EntryHeader];
    var l2 := l1 + ["Timestamp: " + timestamp];
    var l3 := l2 + ["Category: " + category];
    var l4 := l3 + ["Text: " + text];
    var l5 := l4 + ["Metadata: " + metadata];
    var l6 := l5 + [EntryFooter];
    var l7 := l6 + [""];
    assert l7 == EntryLines(timestamp, category, text, metadata);
    var a1 := "\n" + EntryHeader;
    PyText.JoinSnoc(l0, EntryHeader, '\n');
    assert "" + "\n" + EntryHeader == a1;
    var a2 := a1 + "\n" + "Timestamp: " + timestamp;
    AddLine(l1, a1, "Timestamp: ", timestamp);
    var a3 := a2 + "\n" + "Category: " + category;
    AddLine(l2, a2, "Category: ", category);
    var a4 := a3 + "\n" + "Text: " + text;
    AddLine(l3, a3, "Text: ", text);
    var a5 := a4 + "\n" + "Metadata: " + metadata;
    AddLine(l4, a4, "Metadata: ", metadata);
    var a6 := a5 + "\n" + EntryFooter;
    PyText.JoinSnoc(l5, EntryFooter, '\n');
    PyText.JoinSnoc(l6, "", '\n');
    assert a6 + "\n" + "" == a6 + "\n";
  }

  /** An entry whose fields hold no newline reads back as those fields. */
  lemma EntryRoundTrip(timestamp: string, category: string, text: string, metadata: string)
    requires '\n' !in timestamp && '\n' !in category && '\n' !in text && '\n' !in metadata
    ensures ParseEntry(FormatEntry(timestamp, category, text, metadata))
      == Some(EntryFields(timestamp, category, text, metadata))
  {
    FormatIsJoin(timestamp, category, text, metadata);
    ParseJoinedLines(timestamp, category, text, metadata);
  }

  lemma ParseJoinedLines(timestamp: string, category: string, text: string, metadata: string)
    requires '\n' !in timestamp && '\n' !in category && '\n' !in text && '\n' !in metadata
    ensures ParseEntry(PyText.Join(EntryLines(timestamp, category, text, metadata), '\n'))
      == Some(EntryFields(timestamp, category, text, metadata))
  {
    var ls := EntryLines(timestamp, category, text, metadata);
    forall i | 0 <= i < |ls| ensures '\n' !in ls[i] {
    }
    PyText.SplitJoin(ls, '\n');
    assert ("Timestamp: " + timestamp)[..|"Timestamp: "|] == "Timestamp: ";
    assert ("Category: " + category)[..|"Category: "|] == "Category: ";
    assert ("Text: " + text)[..|"Text: "|] == "Text: ";
    assert ("Metadata: " + metadata)[..|"Metadata: "|] == "Metadata: ";
  }

  datatype LocalResult = LocalResult(ok: bool, file: seq<string>)

  /** `_store_locally`: appends one entry to the file, or reports False when the append raises. */
  function StoreLocally(d: MemoryData, io: Io, file: seq<string>): (r: LocalResult)
    ensures r.ok == io.appendOk
    ensures r.ok ==> r.file == file + [FormatEntry(d.createdAt, d.category, d.text, io.metadataRepr(d.metadata))]
    ensures !r.ok ==> r.file == file
  {
    if io.appendOk then
      LocalResult(true, file + [FormatEntry(d.createdAt, d.category, d.text, io.metadataRepr(d.metadata))])
    else LocalResult(false, file)
  }

  // ---------------------------------------------------------------------
  // create_memory

  /** What one memory write did: its result, the payload posted (if any), and the local file afterwards. */
  datatype MemoryOutcome = MemoryOutcome(created: bool, posted: Option<McpPayload>, file: seq<string>)

  /**
   * `MemoryStorage.create_memory`: remote first; on failure, the local file
   * when `local_storage` is on.
   */
  function StorageCreateMemory(config: MemoryConfig, transcript: string, category: string,
                               metadata: Option<map<string, Json.Value>>, io: Io,
                               file: seq<string>): (r: MemoryOutcome)
    ensures var d := NewMemoryData(config, transcript, category, metadata, io.now);
      && r.posted == BuildPayload(d)
      && (CreateViaMcp(d, io.reply).ok ==> r.created && r.file == file)
      && (!CreateViaMcp(d, io.reply).ok && config.localStorage ==>
            r.created == io.appendOk
            && r.file == (if io.appendOk then file + [FormatEntry(io.now, category, transcript,
                                                                  io.metadataRepr(d.metadata))]
                          else file))
      && (!CreateViaMcp(d, io.reply).ok && !config.localStorage ==> !r.created && r.file == file)
    ensures |r.file| <= |file| + 1 && r.file[..|file|] == file
  {
    var d := NewMemoryData(config, transcript, category, metadata, io.now);
    var mcp := CreateViaMcp(d, io.reply);
    if !mcp.ok && config.localStorage then
      var local := StoreLocally(d, io, file);
      MemoryOutcome(local.ok, mcp.posted, local.file)
    else MemoryOutcome(mcp.ok, mcp.posted, file)
  }

  /** Module-level `create_memory`: False, with nothing sent or written, before `init_memory_storage`. */
  function CreateMemory(storage: Option<MemoryConfig>, transcript: string, category: string,
                        metadata: Option<map<string, Json.Value>>, io: Io,
                        file: seq<string>): (r: MemoryOutcome)
    ensures storage.None? ==> r == MemoryOutcome(false, None, file)
    ensures storage.Some? ==> r == StorageCreateMemory(storage.value, transcript, category, metadata, io, file)
  {
    match storage
    case None => MemoryOutcome(false, None, file)
    case Some(config) => StorageCreateMemory(config, transcript, category, metadata, io, file)
  }

  /** `process_transcript_for_memory`. */
  function ProcessTranscriptForMemory(storage: Option<MemoryConfig>, transcript: string,
                                      metadata: Option<map<string, Json.Value>>, io: Io,
                                      file: seq<string>): (r: MemoryOutcome)
    ensures DetectHotPhrase(transcript).None? ==> r == MemoryOutcome(false, None, file)
    ensures DetectHotPhrase(transcript).Some? ==>
      r == CreateMemory(storage, transcript, DetectHotPhrase(transcript).value, metadata, io, file)
  {
    match DetectHotPhrase(transcript)
    case None => MemoryOutcome(false, None, file)
    case Some(category) => CreateMemory(storage, transcript, category, metadata, io, file)
  }

  /**
   * A memory is reported created exactly when the remote write succeeds, or
   * it fails and a permitted local append succeeds; the local file gains an
   * entry only in the second case.
   */
  lemma CreatedIffSomePathSucceeds(config: MemoryConfig, transcript: string, category: string,
                                   metadata: Option<map<string, Json.Value>>, io: Io,
                                   file: seq<string>)
    ensures var d := NewMemoryData(config, transcript, category, metadata, io.now);
      var r := StorageCreateMemory(config, transcript, category, metadata, io, file);
      var remote := CreateViaMcp(d, io.reply).ok;
      && (r.created <==> remote || (config.localStorage && io.appendOk))
      && (|r.file| == |file| + 1 <==> !remote && config.localStorage && io.appendOk)
  {
  }
}
