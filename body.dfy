/**
 * The rich-body decoder `parseAttributedBody` (OTPExtractor.swift).
 *
 * A message whose plain text is missing may still carry its text in an
 * archived rich-text body. The decoder first looks at the body parsed as a
 * property list; when that yields nothing it falls back to cutting the raw
 * bytes into runs of printable ASCII. The property-list parser is a system
 * library, so its outcome is an input here: the parsed tree, or `None` when
 * parsing failed.
 */
module AttributedBody {
  import opened Wrappers

  newtype byte = b: int | 0 <= b < 256

  /**
   * A parsed property-list value. `Num` stands for every non-string leaf
   * (numbers, dates, data, booleans). A dictionary lists its entries in the
   * order the dictionary iterates over them.
   */
  datatype PlistValue =
    | Str(s: string)
    | Num(n: int)
    | Dict(entries: seq<(string, PlistValue)>)
    | Arr(items: seq<PlistValue>)

  /** The key of the plain string in an archived attributed string, and its alternative. */
  const StringKey: string := "NSString"
  const AltStringKey: string := "NS.string"

  /** Strings found by the tree walk must be longer than this. */
  const MinFoundLength: nat := 2

  /** `plist[key]`: the value of the first entry with that key. */
  function Lookup(entries: seq<(string, PlistValue)>, key: string): (r: Option<PlistValue>)
    ensures r.Some? <==> exists i :: 0 <= i < |entries| && entries[i].0 == key
    ensures r.Some? ==> exists i :: 0 <= i < |entries| && entries[i] == (key, r.value)
  {
    if entries == [] then None
    else if entries[0].0 == key then Some(entries[0].1)
    else
      var r := Lookup(entries[1..], key);
      assert forall i :: 1 <= i < |entries| ==> entries[i] == entries[1..][i - 1];
      r
  }

  /** `plist[key] as? String`. */
  function StringAt(entries: seq<(string, PlistValue)>, key: string): Option<string> {
    match Lookup(entries, key)
    case Some(Str(s)) => Some(s)
    case _ => None
  }

  /**
   * The nested `findStrings`: the strings longer than 2 characters, found
   * depth first, dictionary values in iteration order, array items in order.
   */
  function FindStrings(v: PlistValue): seq<string>
    decreases v, 1
  {
    match v
    case Str(s) => if |s| > MinFoundLength then [s] else []
    case Num(_) => []
    case Dict(entries) => FindStringsInEntries(v, entries)
    case Arr(items) => FindStringsInItems(v, items)
  }

  function FindStringsInEntries(ghost parent: PlistValue, entries: seq<(string, PlistValue)>): seq<string>
    requires forall i :: 0 <= i < |entries| ==> entries[i].1 < parent
    decreases parent, 0, |entries|
  {
    if entries == [] then []
    else FindStrings(entries[0].1) + FindStringsInEntries(parent, entries[1..])
  }

  function FindStringsInItems(ghost parent: PlistValue, items: seq<PlistValue>): seq<string>
    requires forall i :: 0 <= i < |items| ==> items[i] < parent
    decreases parent, 0, |items|
  {
    if items == [] then []
    else FindStrings(items[0]) + FindStringsInItems(parent, items[1..])
  }

  /** `s` is a string leaf somewhere in the tree `v`. */
  ghost predicate Occurs(v: PlistValue, s: string)
    decreases v
  {
    match v
    case Str(x) => x == s
    case Num(_) => false
    case Dict(entries) => exists i :: 0 <= i < |entries| && Occurs(entries[i].1, s)
    case Arr(items) => exists i :: 0 <= i < |items| && Occurs(items[i], s)
  }

  /** The tree walk finds exactly the string leaves longer than 2 characters. */
  lemma {:induction false} FindStringsExactly(v: PlistValue)
    ensures forall s :: s in FindStrings(v) <==> |s| > MinFoundLength && Occurs(v, s)
    decreases v, 1
  {
    match v
    case Str(_) =>
    case Num(_) =>
    case Dict(entries) => FindStringsInEntriesExactly(v, entries);
    case Arr(items) => FindStringsInItemsExactly(v, items);
  }

  lemma {:induction false} FindStringsInEntriesExactly(parent: PlistValue, entries: seq<(string, PlistValue)>)
    requires forall i :: 0 <= i < |entries| ==> entries[i].1 < parent
    ensures forall s :: s in FindStringsInEntries(parent, entries) <==>
      |s| > MinFoundLength && exists i :: 0 <= i < |entries| && Occurs(entries[i].1, s)
    decreases parent, 0, |entries|
  {
    if entries != [] {
      FindStringsExactly(entries[0].1);
      FindStringsInEntriesExactly(parent, entries[1..]);
      forall s | |s| > MinFoundLength && (exists i :: 0 <= i < |entries| && Occurs(entries[i].1, s))
        ensures s in FindStringsInEntries(parent, entries)
      {
        var i :| 0 <= i < |entries| && Occurs(entries[i].1, s);
        if i > 0 {
          assert entries[1..][i - 1] == entries[i];
        }
      }
    }
  }

  lemma {:induction false} FindStringsInItemsExactly(parent: PlistValue, items: seq<PlistValue>)
    requires forall i :: 0 <= i < |items| ==> items[i] < parent
    ensures forall s :: s in FindStringsInItems(parent, items) <==>
      |s| > MinFoundLength && exists i :: 0 <= i < |items| && Occurs(items[i], s)
    decreases parent, 0, |items|
  {
    if items != [] {
      FindStringsExactly(items[0]);
      FindStringsInItemsExactly(parent, items[1..]);
      forall s | |s| > MinFoundLength && (exists i :: 0 <= i < |items| && Occurs(items[i], s))
        ensures s in FindStringsInItems(parent, items)
      {
        var i :| 0 <= i < |items| && Occurs(items[i], s);
        if i > 0 {
          assert items[1..][i - 1] == items[i];
        }
      }
    }
  }

  /** `strings.joined(separator: sep)`. */
  function Join(parts: seq<string>, sep: string): string {
    if parts == [] then ""
    else if |parts| == 1 then parts[0]
    else parts[0] + sep + Join(parts[1..], sep)
  }

  /** A joined list is at least as long as its first two parts and the separator between them. */
  lemma {:induction false} JoinLength(parts: seq<string>, sep: string)
    ensures parts != [] ==> |Join(parts, sep)| >= |parts[0]|
    ensures |parts| >= 2 ==> |Join(parts, sep)| >= |parts[0]| + |sep| + |parts[1]|
  {
    if |parts| >= 2 {
      JoinLength(parts[1..], sep);
    }
  }

  /** Printable ASCII, 32 to 126. */
  predicate IsPrintable(b: byte) { 32 <= b <= 126 }

  predicate IsPrintableChar(c: char) { 32 <= c as int <= 126 }

  /** Joining printable parts with a printable separator gives printable text. */
  lemma {:induction false} JoinPrintable(parts: seq<string>, sep: string)
    requires forall p :: p in parts ==> forall k :: 0 <= k < |p| ==> IsPrintableChar(p[k])
    requires forall k :: 0 <= k < |sep| ==> IsPrintableChar(sep[k])
    ensures forall k :: 0 <= k < |Join(parts, sep)| ==> IsPrintableChar(Join(parts, sep)[k])
  {
    if |parts| >= 2 {
      JoinPrintable(parts[1..], sep);
      var rest := Join(parts[1..], sep);
      assert parts[0] in parts;
      assert Join(parts, sep) == parts[0] + sep + rest;
    } else if |parts| == 1 {
      assert parts[0] in parts;
    }
  }

  /**
   * The structured path: the `NSString` value when it is a string, else the
   * `NS.string` value when it is a string, else the found strings joined by
   * single spaces; `None` when the root is not a dictionary, parsing failed,
   * or no string was found.
   */
  function StructuredText(parsed: Option<PlistValue>): Option<string> {
    match parsed
    case Some(Dict(entries)) =>
      if StringAt(entries, StringKey).Some? then StringAt(entries, StringKey)
      else if StringAt(entries, AltStringKey).Some? then StringAt(entries, AltStringKey)
      else
        var strings := FindStrings(parsed.value);
        if strings != [] then Some(Join(strings, " ")) else None
    case _ => None
  }

  /** A stretch `data[start..start + len]` of the bytes. */
  datatype Run = Run(start: nat, len: nat)

  /** Runs shorter than this are dropped. */
  const MinChunkLength: nat := 3

  /** The fallback returns its text only when it is longer than this. */
  const MinFallbackLength: nat := 5

  /** The number of consecutive printable bytes of `d` from position `i`. */
  function PrintableRun(d: seq<byte>, i: nat): (n: nat)
    requires i <= |d|
    ensures i + n <= |d|
    ensures forall k :: i <= k < i + n ==> IsPrintable(d[k])
    ensures i + n == |d| || !IsPrintable(d[i + n])
    decreases |d| - i
  {
    if i < |d| && IsPrintable(d[i]) then 1 + PrintableRun(d, i + 1) else 0
  }

  /** A printable run starts at `i`: `i` is the start or follows a non-printable byte. */
  predicate RunStartsAt(d: seq<byte>, i: nat)
    requires i <= |d|
  {
    i == 0 || !IsPrintable(d[i - 1])
  }

  /** `d[s..s + n]` is a maximal run of printable bytes, at least 3 long. */
  ghost predicate IsChunk(d: seq<byte>, s: nat, n: nat) {
    && s + n <= |d|
    && n >= MinChunkLength
    && (forall k :: s <= k < s + n ==> IsPrintable(d[k]))
    && RunStartsAt(d, s)
    && (s + n == |d| || !IsPrintable(d[s + n]))
  }

  /** The maximal printable runs of at least 3 bytes that start at `i` or later, left to right. */
  function ChunkRunsFrom(d: seq<byte>, i: nat): (runs: seq<Run>)
    requires i <= |d|
    ensures forall r :: r in runs ==> i <= r.start && r.start + r.len <= |d|
    decreases |d| - i
  {
    if i == |d| then []
    else
      var n := PrintableRun(d, i);
      if RunStartsAt(d, i) && n > 0 then
        (if n >= MinChunkLength then [Run(i, n)] else []) + ChunkRunsFrom(d, i + n)
      else
        ChunkRunsFrom(d, i + 1)
  }

  /** A maximal run has the length of the printable run at its start. */
  lemma ChunkLengthIsRun(d: seq<byte>, s: nat, n: nat)
    requires IsChunk(d, s, n)
    ensures n == PrintableRun(d, s)
  {
    var r := PrintableRun(d, s);
    assert s + n == |d| || !IsPrintable(d[s + n]);
    assert s + r == |d| || !IsPrintable(d[s + r]);
  }

  /** A printable run at a run start, followed by sound runs, gives sound runs. */
  lemma SoundAfterRun(d: seq<byte>, i: nat, n: nat)
    requires i < |d| && RunStartsAt(d, i) && n == PrintableRun(d, i) && n > 0
    requires forall r :: r in ChunkRunsFrom(d, i + n) ==> IsChunk(d, r.start, r.len)
    ensures forall r :: r in ChunkRunsFrom(d, i) ==> IsChunk(d, r.start, r.len)
  {
    var rest := ChunkRunsFrom(d, i + n);
    if n >= MinChunkLength {
      var runs := ChunkRunsFrom(d, i);
      assert runs == [Run(i, n)] + rest;
      forall r | r in runs ensures IsChunk(d, r.start, r.len) {
        if r !in rest {
          assert r == Run(i, n);
        }
      }
    } else {
      assert ChunkRunsFrom(d, i) == rest;
    }
  }

  lemma {:induction false} ChunkRunsFromSound(d: seq<byte>, i: nat)
    requires i <= |d|
    ensures forall r :: r in ChunkRunsFrom(d, i) ==> IsChunk(d, r.start, r.len)
    decreases |d| - i
  {
    if i < |d| {
      var n := PrintableRun(d, i);
      if RunStartsAt(d, i) && n > 0 {
        ChunkRunsFromSound(d, i + n);
        SoundAfterRun(d, i, n);
      } else {
        ChunkRunsFromSound(d, i + 1);
        assert ChunkRunsFrom(d, i) == ChunkRunsFrom(d, i + 1);
      }
    }
  }

  /** Runs in increasing order, separated by at least one byte. */
  predicate RunsOrdered(runs: seq<Run>) {
    forall a, b :: 0 <= a < b < |runs| ==> runs[a].start + runs[a].len < runs[b].start
  }

  lemma RunsConsOrdered(x: Run, rest: seq<Run>)
    requires RunsOrdered(rest)
    requires forall y :: y in rest ==> x.start + x.len < y.start
    ensures RunsOrdered([x] + rest)
  {
    var runs := [x] + rest;
    forall a, b | 0 <= a < b < |runs| ensures runs[a].start + runs[a].len < runs[b].start {
      assert runs[b] == rest[b - 1];
      assert rest[b - 1] in rest;
      if a > 0 {
        assert runs[a] == rest[a - 1];
      }
    }
  }

  /** A printable run at a run start, followed by ordered runs, gives ordered runs. */
  lemma OrderedAfterRun(d: seq<byte>, i: nat, n: nat)
    requires i < |d| && RunStartsAt(d, i) && n == PrintableRun(d, i) && n > 0
    requires RunsOrdered(ChunkRunsFrom(d, i + n))
    ensures RunsOrdered(ChunkRunsFrom(d, i))
  {
    var rest := ChunkRunsFrom(d, i + n);
    if n >= MinChunkLength {
      ChunkRunsFromSound(d, i + n);
      // Every later run starts after a non-printable byte, so not at i + n.
      assert IsPrintable(d[i + n - 1]);
      forall y | y in rest ensures i + n < y.start {
        assert IsChunk(d, y.start, y.len);
      }
      RunsConsOrdered(Run(i, n), rest);
      assert ChunkRunsFrom(d, i) == [Run(i, n)] + rest;
    } else {
      assert ChunkRunsFrom(d, i) == rest;
    }
  }

  lemma {:induction false} ChunkRunsFromOrdered(d: seq<byte>, i: nat)
    requires i <= |d|
    ensures RunsOrdered(ChunkRunsFrom(d, i))
    decreases |d| - i
  {
    if i < |d| {
      var n := PrintableRun(d, i);
      if RunStartsAt(d, i) && n > 0 {
        ChunkRunsFromOrdered(d, i + n);
        OrderedAfterRun(d, i, n);
      } else {
        ChunkRunsFromOrdered(d, i + 1);
        assert ChunkRunsFrom(d, i) == ChunkRunsFrom(d, i + 1);
      }
    }
  }

  lemma {:induction false} ChunkRunsFromComplete(d: seq<byte>, i: nat, s: nat, n: nat)
    requires i <= s && IsChunk(d, s, n)
    ensures Run(s, n) in ChunkRunsFrom(d, i)
    decreases |d| - i
  {
    ChunkLengthIsRun(d, s, n);
    var r := PrintableRun(d, i);
    if RunStartsAt(d, i) && r > 0 {
      if s != i {
        // A maximal run cannot start inside the run that begins at i.
        assert !IsPrintable(d[s - 1]);
        ChunkRunsFromComplete(d, i + r, s, n);
      }
    } else {
      assert s != i;
      ChunkRunsFromComplete(d, i + 1, s, n);
    }
  }

  /** The runs the chunker keeps, over the whole body. */
  function ChunkRuns(d: seq<byte>): (runs: seq<Run>)
    ensures forall r :: r in runs ==> r.start + r.len <= |d|
  {
    ChunkRunsFrom(d, 0)
  }

  /** The chunker keeps exactly the maximal printable runs of at least 3 bytes, in input order. */
  lemma ChunkRunsExactly(d: seq<byte>)
    ensures forall s, n :: Run(s, n) in ChunkRuns(d) <==> IsChunk(d, s, n)
    ensures RunsOrdered(ChunkRuns(d))
  {
    assert ChunkRuns(d) == ChunkRunsFrom(d, 0);
    ChunkRunsFromSound(d, 0);
    ChunkRunsFromOrdered(d, 0);
    forall s, n | IsChunk(d, s, n) ensures Run(s, n) in ChunkRuns(d) {
      ChunkRunsFromComplete(d, 0, s, n);
    }
  }

  /** Bytes read as characters, one character per byte (`Character(UnicodeScalar(byte))`). */
  function Decode(bytes: seq<byte>): (s: string)
    ensures |s| == |bytes|
  {
    seq(|bytes|, k requires 0 <= k < |bytes| => (bytes[k] as int) as char)
  }

  /** The text of each kept run. */
  function RunTexts(d: seq<byte>, runs: seq<Run>): (texts: seq<string>)
    requires forall r :: r in runs ==> r.start + r.len <= |d|
    ensures |texts| == |runs|
  {
    seq(|runs|, k requires 0 <= k < |runs| => assert runs[k] in runs; Decode(d[runs[k].start..runs[k].start + runs[k].len]))
  }

  /** The chunks of the raw-byte fallback, in input order. */
  function Chunks(d: seq<byte>): seq<string> {
    RunTexts(d, ChunkRuns(d))
  }

  /** The raw-byte fallback: the chunks joined by single spaces, when that is longer than 5 characters. */
  function FallbackText(d: seq<byte>): Option<string> {
    var chunks := Chunks(d);
    if chunks == [] then None
    else
      var joined := Join(chunks, " ");
      if |joined| > MinFallbackLength then Some(joined) else None
  }

  /** Every chunk is printable ASCII and at least 3 characters long. */
  lemma ChunksPrintable(d: seq<byte>)
    ensures forall c :: c in Chunks(d) ==> |c| >= MinChunkLength && forall k :: 0 <= k < |c| ==> IsPrintableChar(c[k])
  {
    var runs := ChunkRuns(d);
    ChunkRunsExactly(d);
    forall c | c in Chunks(d) ensures |c| >= MinChunkLength && forall k :: 0 <= k < |c| ==> IsPrintableChar(c[k]) {
      var j :| 0 <= j < |runs| && Chunks(d)[j] == c;
      assert runs[j] in runs;
      var r := runs[j];
      assert IsChunk(d, r.start, r.len);
      forall k | 0 <= k < |c| ensures IsPrintableChar(c[k]) {
        assert c[k] == (d[r.start + k] as int) as char;
      }
    }
  }

  /**
   * The fallback yields text exactly when there are two or more chunks, or
   * a single chunk longer than 5 characters; that text is printable ASCII.
   */
  lemma FallbackTextSpec(d: seq<byte>)
    ensures FallbackText(d).Some? <==> |Chunks(d)| >= 2 || (|Chunks(d)| == 1 && |Chunks(d)[0]| > MinFallbackLength)
    ensures FallbackText(d).Some? ==>
      |FallbackText(d).value| > MinFallbackLength
      && forall k :: 0 <= k < |FallbackText(d).value| ==> IsPrintableChar(FallbackText(d).value[k])
  {
    var chunks := Chunks(d);
    ChunksPrintable(d);
    JoinLength(chunks, " ");
    if |chunks| >= 2 {
      assert chunks[0] in chunks && chunks[1] in chunks;
    }
    JoinPrintable(chunks, " ");
  }

  /** `parseAttributedBody` as a function of the body and of the parser's outcome on it. */
  function DecodeBody(data: seq<byte>, parsed: Option<PlistValue>): Option<string> {
    match StructuredText(parsed)
    case Some(text) => Some(text)
    case None => FallbackText(data)
  }

  /**
   * Which path decides the result for a dictionary root: the `NSString`
   * string, else the `NS.string` string, else the joined strings of the
   * tree, and only when the tree holds no string longer than 2 characters
   * the raw-byte fallback.
   */
  lemma DecodeBodyOfDictionary(data: seq<byte>, entries: seq<(string, PlistValue)>)
    ensures StringAt(entries, StringKey).Some? ==>
      DecodeBody(data, Some(Dict(entries))) == StringAt(entries, StringKey)
    ensures (StringAt(entries, StringKey).None? && StringAt(entries, AltStringKey).Some?) ==>
      DecodeBody(data, Some(Dict(entries))) == StringAt(entries, AltStringKey)
    ensures (StringAt(entries, StringKey).None? && StringAt(entries, AltStringKey).None?
             && exists s :: |s| > MinFoundLength && Occurs(Dict(entries), s)) ==>
      DecodeBody(data, Some(Dict(entries))) == Some(Join(FindStrings(Dict(entries)), " "))
    ensures (StringAt(entries, StringKey).None? && StringAt(entries, AltStringKey).None?
             && forall s :: |s| > MinFoundLength ==> !Occurs(Dict(entries), s)) ==>
      DecodeBody(data, Some(Dict(entries))) == FallbackText(data)
  {
    FindStringsExactly(Dict(entries));
    if FindStrings(Dict(entries)) != [] {
      assert FindStrings(Dict(entries))[0] in FindStrings(Dict(entries));
    }
  }

  /** A body that did not parse, or whose root is not a dictionary, is decoded by the raw-byte fallback. */
  lemma DecodeBodyWithoutDictionary(data: seq<byte>, parsed: Option<PlistValue>)
    requires parsed.None? || !parsed.value.Dict?
    ensures DecodeBody(data, parsed) == FallbackText(data)
  {
  }

  /** Where a non-printable byte ends the current stretch, the runs from the stretch's start are that stretch (if kept) and the runs after the byte. */
  lemma ChunkRunsAtBreak(d: seq<byte>, s: nat, i: nat)
    requires s <= i < |d|
    requires RunStartsAt(d, s)
    requires forall k :: s <= k < i ==> IsPrintable(d[k])
    requires !IsPrintable(d[i])
    ensures ChunkRunsFrom(d, s) ==
      (if i - s >= MinChunkLength then [Run(s, i - s)] else []) + ChunkRunsFrom(d, i + 1)
  {
    assert ChunkRunsFrom(d, i) == ChunkRunsFrom(d, i + 1);
    if s < i {
      var r := PrintableRun(d, s);
      assert s + r == |d| || !IsPrintable(d[s + r]);
      assert r == i - s;
    }
  }

  /** A stretch that runs to the end of the bytes is the last run (if kept). */
  lemma ChunkRunsAtEnd(d: seq<byte>, s: nat)
    requires s <= |d|
    requires RunStartsAt(d, s)
    requires forall k :: s <= k < |d| ==> IsPrintable(d[k])
    ensures ChunkRunsFrom(d, s) == if |d| - s >= MinChunkLength then [Run(s, |d| - s)] else []
  {
    if s < |d| {
      assert PrintableRun(d, s) == |d| - s;
      assert ChunkRunsFrom(d, |d|) == [];
    }
  }

  lemma DecodeAppend(d: seq<byte>, s: nat, i: nat)
    requires s <= i < |d|
    ensures Decode(d[s..i + 1]) == Decode(d[s..i]) + [(d[i] as int) as char]
  {
    assert d[s..i + 1] == d[s..i] + [d[i]];
  }

  lemma RunTextsAppend(d: seq<byte>, runs: seq<Run>, r: Run)
    requires forall x :: x in runs ==> x.start + x.len <= |d|
    requires r.start + r.len <= |d|
    ensures RunTexts(d, runs + [r]) == RunTexts(d, runs) + [Decode(d[r.start..r.start + r.len])]
  {
    var all := runs + [r];
    assert all[|runs|] == r;
    forall k | 0 <= k < |runs| ensures RunTexts(d, all)[k] == RunTexts(d, runs)[k] {
      assert all[k] == runs[k];
    }
  }

  /**
   * The state of the chunking loop after the first `i` bytes: `current` is
   * the printable stretch begun at `start`, `chunks` the texts of the runs
   * `done` already kept, and those runs followed by the runs from `start` on
   * are all the runs of the body.
   */
  ghost predicate ChunkerState(d: seq<byte>, i: nat, start: nat, done: seq<Run>, current: string, chunks: seq<string>) {
    && start <= i <= |d|
    && |current| == i - start
    && RunStartsAt(d, start)
    && (forall k :: start <= k < i ==> IsPrintable(d[k]))
    && current == Decode(d[start..i])
    && (forall r :: r in done ==> r.start + r.len <= |d|)
    && done + ChunkRunsFrom(d, start) == ChunkRuns(d)
    && chunks == RunTexts(d, done)
  }

  /** A printable byte extends the current stretch. */
  lemma ChunkerPrintable(d: seq<byte>, i: nat, start: nat, done: seq<Run>, current: string, chunks: seq<string>)
    requires ChunkerState(d, i, start, done, current, chunks)
    requires i < |d| && IsPrintable(d[i])
    ensures ChunkerState(d, i + 1, start, done, current + [(d[i] as int) as char], chunks)
  {
    DecodeAppend(d, start, i);
  }

  /** A non-printable byte closes the current stretch, keeping it when it is at least 3 long. */
  lemma ChunkerBreak(d: seq<byte>, i: nat, start: nat, done: seq<Run>, current: string, chunks: seq<string>)
    requires ChunkerState(d, i, start, done, current, chunks)
    requires i < |d| && !IsPrintable(d[i])
    ensures |current| >= MinChunkLength ==>
      ChunkerState(d, i + 1, i + 1, done + [Run(start, |current|)], "", chunks + [current])
    ensures |current| < MinChunkLength ==>
      ChunkerState(d, i + 1, i + 1, done, "", chunks)
  {
    ChunkRunsAtBreak(d, start, i);
    if |current| >= MinChunkLength {
      RunTextsAppend(d, done, Run(start, |current|));
      assert (done + [Run(start, |current|)]) + ChunkRunsFrom(d, i + 1) == ChunkRuns(d);
    } else {
      assert ChunkRunsFrom(d, start) == ChunkRunsFrom(d, i + 1);
    }
  }

  /** At the end of the bytes, the kept texts with the last stretch (if kept) are the chunks. */
  lemma ChunkerEnd(d: seq<byte>, start: nat, done: seq<Run>, current: string, chunks: seq<string>)
    requires ChunkerState(d, |d|, start, done, current, chunks)
    ensures (if |current| >= MinChunkLength then chunks + [current] else chunks) == Chunks(d)
  {
    ChunkRunsAtEnd(d, start);
    if |current| >= MinChunkLength {
      RunTextsAppend(d, done, Run(start, |current|));
      assert done + [Run(start, |current|)] == ChunkRuns(d);
    } else {
      assert ChunkRunsFrom(d, start) == [];
      assert done == ChunkRuns(d);
    }
  }

  /** The chunking loop of the fallback: one pass over the bytes with the current chunk as accumulator. */
  method RawTextFallback(data: seq<byte>) returns (text: Option<string>)
    ensures text == FallbackText(data)
  {
    var textChunks: seq<string> := [];
    var currentChunk: string := "";
    ghost var start := 0;
    ghost var done: seq<Run> := [];
    var i := 0;
    while i < |data|
      invariant ChunkerState(data, i, start, done, currentChunk, textChunks)
    {
      var byte := data[i];
      if IsPrintable(byte) {
        ChunkerPrintable(data, i, start, done, currentChunk, textChunks);
        currentChunk := currentChunk + [(byte as int) as char];
      } else {
        ChunkerBreak(data, i, start, done, currentChunk, textChunks);
        if |currentChunk| >= MinChunkLength {
          done := done + [Run(start, |currentChunk|)];
          textChunks := textChunks + [currentChunk];
        }
        currentChunk := "";
        start := i + 1;
      }
      i := i + 1;
    }
    ChunkerEnd(data, start, done, currentChunk, textChunks);
    if |currentChunk| >= MinChunkLength {
      textChunks := textChunks + [currentChunk];
    }
    if textChunks != [] {
      var result := Join(textChunks, " ");
      text := if |result| > MinFallbackLength then Some(result) else None;
    } else {
      text := None;
    }
  }

  /** `parseAttributedBody`: the structured path, then the raw-byte fallback; it never fails. */
  method ParseAttributedBody(data: seq<byte>, parsed: Option<PlistValue>) returns (text: Option<string>)
    ensures text == DecodeBody(data, parsed)
  {
    var structured := StructuredText(parsed);
    if structured.Some? {
      return structured;
    }
    text := RawTextFallback(data);
  }
}
