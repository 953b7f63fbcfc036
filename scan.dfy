/**
 * The scan of the Messages store, `scanMessagesDatabase` (OTPExtractor.swift).
 *
 * The file system and SQLite are replaced by values: a map from the paths
 * that exist to the database found there, where a database records whether
 * it opens, whether the query prepares, and the rows the query returns
 * (already filtered to rows with a text or a body, newest first, at most
 * 200, as the SQL asks). The home directory and the user name are inputs.
 */
module Scan {
  import opened Wrappers
  import opened Models
  import Detector
  import AttributedBody

  /**
   * One row of the query: the text column (`None` when NULL), the
   * attributedBody column when it holds a blob, the property-list parser's
   * outcome on that blob, the sender (already defaulted to "Unknown" by the
   * query) and the raw date.
   */
  datatype Row = Row(
    text: Option<string>,
    body: Option<seq<AttributedBody.byte>>,
    parsedBody: Option<AttributedBody.PlistValue>,
    sender: string,
    date: int)

  /** What opening a database file and preparing the query on it give. */
  datatype Database = Database(opens: bool, prepares: bool, rows: seq<Row>)

  /** The files that exist, with the database each holds. */
  type FileSystem = map<string, Database>

  /** A message with usable text, as collected from a row. */
  datatype Message = Message(text: string, sender: string, date: int)

  const ChatDatabase: string := "/Library/Messages/chat.db"
  const CannotOpen: string := "Cannot open database"
  const CannotPrepare: string := "Cannot prepare query"

  /** The two candidate locations: under the expanded `~`, then under `/Users/<user name>`. */
  function CandidatePaths(home: string, userName: string): seq<string> {
    [home + ChatDatabase, "/Users/" + userName + ChatDatabase]
  }

  /** The first path that exists, if any. */
  function FirstExisting(fs: FileSystem, paths: seq<string>): (r: Option<string>)
    ensures r.None? <==> forall p :: p in paths ==> p !in fs
    ensures r.Some? ==> exists i :: (0 <= i < |paths| && paths[i] == r.value && r.value in fs
      && forall j :: 0 <= j < i ==> paths[j] !in fs)
  {
    if paths == [] then None
    else if paths[0] in fs then Some(paths[0])
    else
      var r := FirstExisting(fs, paths[1..]);
      assert forall j :: 1 <= j < |paths| ==> paths[j] == paths[1..][j - 1];
      r
  }

  /** `String(cString:)`: the text up to its first NUL character. */
  function CString(s: string): (r: string)
    ensures r <= s
    ensures forall k :: 0 <= k < |r| ==> r[k] != '\0'
    ensures |r| == |s| || s[|r|] == '\0'
  {
    if s == [] || s[0] == '\0' then [] else [s[0]] + CString(s[1..])
  }

  /**
   * The final text of a row: the text column; only when that is empty and
   * the blob is non-empty, the decoded body (or empty when decoding gives
   * nothing).
   */
  function RowText(row: Row): (r: string)
    ensures row.text.Some? && CString(row.text.value) != [] ==> r == CString(row.text.value)
    ensures r != [] && (row.text.None? || CString(row.text.value) == []) ==>
      row.body.Some? && |row.body.value| > 0
      && AttributedBody.DecodeBody(row.body.value, row.parsedBody) == Some(r)
    ensures r == [] <==> ((row.text.None? || CString(row.text.value) == [])
      && (row.body.None? || |row.body.value| == 0
          || AttributedBody.DecodeBody(row.body.value, row.parsedBody) in {None, Some("")}))
  {
    var text := if row.text.Some? then CString(row.text.value) else "";
    if text == [] && row.body.Some? && |row.body.value| > 0 then
      match AttributedBody.DecodeBody(row.body.value, row.parsedBody)
      case Some(decoded) => decoded
      case None => ""
    else text
  }

  function MessageOf(row: Row): Message {
    Message(RowText(row), CString(row.sender), row.date)
  }

  /** The messages collected from the rows: rows whose final text is empty are dropped. */
  function Messages(rows: seq<Row>): (ms: seq<Message>)
    ensures |ms| <= |rows|
    ensures forall m :: m in ms ==> m.text != [] && exists row :: row in rows && m == MessageOf(row)
  {
    if rows == [] then []
    else
      var init := rows[..|rows| - 1];
      var last := rows[|rows| - 1];
      var ms := Messages(init);
      assert forall row :: row in init ==> row in rows;
      if RowText(last) != [] then ms + [MessageOf(last)] else ms
  }

  /** Collecting messages distributes over concatenation: surviving rows keep their order. */
  lemma {:induction false} MessagesAppend(a: seq<Row>, b: seq<Row>)
    ensures Messages(a + b) == Messages(a) + Messages(b)
    decreases |b|
  {
    if b != [] {
      var b' := b[..|b| - 1];
      assert (a + b)[..|a + b| - 1] == a + b';
      assert (a + b)[|a + b| - 1] == b[|b| - 1];
      MessagesAppend(a, b');
    } else {
      assert a + b == a;
    }
  }

  /** A single row gives its message exactly when its final text is non-empty. */
  lemma MessagesOfRow(row: Row)
    ensures Messages([row]) == if RowText(row) != [] then [MessageOf(row)] else []
  {
    assert [row][..0] == [];
  }

  /** The detections among the messages, in message order. */
  function Detections(ms: seq<Message>): (otps: seq<OTPMessage>)
    ensures |otps| <= |ms|
    ensures forall o :: o in otps ==> exists m :: (m in ms
      && Detector.Detect(m.text) == Some(o.code)
      && o == OTPMessage(o.code, m.sender, m.date, m.text))
  {
    if ms == [] then []
    else
      var init := ms[..|ms| - 1];
      var last := ms[|ms| - 1];
      var otps := Detections(init);
      assert forall m :: m in init ==> m in ms;
      match Detector.Detect(last.text)
      case Some(code) => otps + [OTPMessage(code, last.sender, last.date, last.text)]
      case None => otps
  }

  /** Every message in which a code is detected yields its record. */
  lemma {:induction false} DetectionsComplete(ms: seq<Message>)
    ensures forall m :: m in ms && Detector.Detect(m.text).Some? ==>
      OTPMessage(Detector.Detect(m.text).value, m.sender, m.date, m.text) in Detections(ms)
  {
    if ms != [] {
      var init := ms[..|ms| - 1];
      var last := ms[|ms| - 1];
      DetectionsComplete(init);
      assert ms == init + [last];
      forall m | m in ms && Detector.Detect(m.text).Some?
        ensures OTPMessage(Detector.Detect(m.text).value, m.sender, m.date, m.text) in Detections(ms)
      {
        if m != last {
          assert m in init;
        }
      }
    }
  }

  /** Detection distributes over concatenation: detections keep the message order. */
  lemma {:induction false} DetectionsAppend(a: seq<Message>, b: seq<Message>)
    ensures Detections(a + b) == Detections(a) + Detections(b)
    decreases |b|
  {
    if b != [] {
      var b' := b[..|b| - 1];
      assert (a + b)[..|a + b| - 1] == a + b';
      assert (a + b)[|a + b| - 1] == b[|b| - 1];
      DetectionsAppend(a, b');
    } else {
      assert a + b == a;
    }
  }

  /** The codes of a list of records. */
  function Codes(otps: seq<OTPMessage>): set<string> {
    set o | o in otps :: o.code
  }

  /** `otps.first { $0.code == code }`. */
  function FirstWithCode(otps: seq<OTPMessage>, code: string): (r: Option<OTPMessage>)
    ensures r.None? <==> code !in Codes(otps)
    ensures r.Some? ==> exists i :: (0 <= i < |otps| && otps[i] == r.value && r.value.code == code
      && forall j :: 0 <= j < i ==> otps[j].code != code)
  {
    if otps == [] then None
    else if otps[0].code == code then Some(otps[0])
    else
      var r := FirstWithCode(otps[1..], code);
      assert forall j :: 1 <= j < |otps| ==> otps[j] == otps[1..][j - 1];
      assert forall o :: o in otps[1..] ==> o in otps;
      r
  }

  /** The first record with a code is unchanged by appending, unless the code is new. */
  lemma {:induction false} FirstWithCodeAppend(otps: seq<OTPMessage>, x: OTPMessage, code: string)
    ensures FirstWithCode(otps + [x], code) ==
      if code in Codes(otps) then FirstWithCode(otps, code)
      else if x.code == code then Some(x) else None
  {
    if otps != [] {
      assert (otps + [x])[1..] == otps[1..] + [x];
      if otps[0].code != code {
        FirstWithCodeAppend(otps[1..], x, code);
        assert code in Codes(otps) <==> code in Codes(otps[1..]) by {
          assert forall o :: o in otps ==> o == otps[0] || o in otps[1..];
          assert forall o :: o in otps[1..] ==> o in otps;
        }
      }
    } else {
      assert otps + [x] == [x];
    }
  }

  predicate DistinctCodes(otps: seq<OTPMessage>) {
    forall i, j :: 0 <= i < j < |otps| ==> otps[i].code != otps[j].code
  }

  lemma CodesAppend(otps: seq<OTPMessage>, x: OTPMessage)
    ensures Codes(otps + [x]) == Codes(otps) + {x.code}
  {
    assert forall o :: o in otps + [x] <==> o in otps || o == x;
  }

  /**
   * One record per code: the records whose code has not been seen earlier
   * in the list, in list order.
   */
  function Dedup(otps: seq<OTPMessage>): (r: seq<OTPMessage>)
    ensures Codes(r) == Codes(otps)
    ensures DistinctCodes(r)
    ensures forall o :: o in r ==> o in otps
  {
    if otps == [] then []
    else
      var init := otps[..|otps| - 1];
      var last := otps[|otps| - 1];
      var r := Dedup(init);
      assert otps == init + [last];
      CodesAppend(init, last);
      if last.code in Codes(init) then r
      else
        CodesAppend(r, last);
        assert forall o :: o in r ==> o.code in Codes(r);
        r + [last]
  }

  /** Each kept record is the first one in the list with its code. */
  lemma {:induction false} DedupKeepsFirst(otps: seq<OTPMessage>)
    ensures forall o :: o in Dedup(otps) ==> FirstWithCode(otps, o.code) == Some(o)
  {
    if otps != [] {
      var init := otps[..|otps| - 1];
      var last := otps[|otps| - 1];
      assert otps == init + [last];
      DedupKeepsFirst(init);
      forall o | o in Dedup(otps) ensures FirstWithCode(otps, o.code) == Some(o) {
        FirstWithCodeAppend(init, last, o.code);
        if o in Dedup(init) {
          assert o.code in Codes(init);
        }
      }
    }
  }

  /** Timestamps are non-increasing: newest first. */
  predicate NewestFirst(otps: seq<OTPMessage>) {
    forall i, j :: 0 <= i < j < |otps| ==> otps[i].timestamp >= otps[j].timestamp
  }

  /** Places `x` before the first record of a newest-first list that is strictly older. */
  function Insert(x: OTPMessage, s: seq<OTPMessage>): (r: seq<OTPMessage>)
    ensures multiset(r) == multiset(s) + multiset{x}
  {
    if s == [] then [x]
    else if s[0].timestamp <= x.timestamp then [x] + s
    else
      assert s == [s[0]] + s[1..];
      [s[0]] + Insert(x, s[1..])
  }

  /** Inserting into a newest-first list keeps it newest first. */
  lemma {:induction false} InsertNewestFirst(x: OTPMessage, s: seq<OTPMessage>)
    requires NewestFirst(s)
    ensures NewestFirst(Insert(x, s))
  {
    if s != [] && s[0].timestamp > x.timestamp {
      var tail := s[1..];
      var rest := Insert(x, tail);
      InsertNewestFirst(x, tail);
      InsertMembers(x, tail);
      forall y | y in rest ensures s[0].timestamp >= y.timestamp {
        if y != x {
          var k :| 0 <= k < |tail| && tail[k] == y;
          assert s[k + 1] == y;
        }
      }
      ConsNewestFirst(s[0], rest);
      assert Insert(x, s) == [s[0]] + rest;
    }
  }

  lemma InsertMembers(x: OTPMessage, s: seq<OTPMessage>)
    ensures forall y :: y in Insert(x, s) ==> y == x || y in s
  {
    forall y | y in Insert(x, s) ensures y == x || y in s {
      assert y in multiset(Insert(x, s));
    }
  }

  lemma ConsNewestFirst(x: OTPMessage, s: seq<OTPMessage>)
    requires NewestFirst(s)
    requires forall y :: y in s ==> x.timestamp >= y.timestamp
    ensures NewestFirst([x] + s)
  {
    var r := [x] + s;
    forall i, j | 0 <= i < j < |r| ensures r[i].timestamp >= r[j].timestamp {
      assert r[j] == s[j - 1];
      assert s[j - 1] in s;
      if i > 0 {
        assert r[i] == s[i - 1];
      }
    }
  }

  /** `sorted { $0.timestamp > $1.timestamp }`: a newest-first permutation. */
  function SortNewestFirst(s: seq<OTPMessage>): (r: seq<OTPMessage>)
    ensures multiset(r) == multiset(s)
    ensures NewestFirst(r)
  {
    if s == [] then []
    else
      assert s == [s[0]] + s[1..];
      var sorted := SortNewestFirst(s[1..]);
      InsertNewestFirst(s[0], sorted);
      Insert(s[0], sorted)
  }

  /** Reordering a list with distinct codes keeps its codes distinct. */
  lemma PermutationKeepsDistinct(s: seq<OTPMessage>, r: seq<OTPMessage>)
    requires multiset(r) == multiset(s) && DistinctCodes(s)
    ensures DistinctCodes(r)
  {
    forall i, j | 0 <= i < j < |r| ensures r[i].code != r[j].code {
      if r[i].code == r[j].code {
        var x, y := r[i], r[j];
        assert x in multiset(s) && y in multiset(s);
        var a :| 0 <= a < |s| && s[a] == x;
        var b :| 0 <= b < |s| && s[b] == y;
        // Distinct codes make each record occur once in s, so x and y are the same element twice.
        assert a == b;
        assert r[..j] + r[j..] == r;
        assert x in r[..j];
        assert multiset(r[..j])[x] >= 1 && multiset(r[j..])[x] >= 1;
        assert multiset(r)[x] >= 2;
        SingleOccurrence(s, a);
      }
    }
  }

  /** In a list with distinct codes, each record occurs once. */
  lemma {:induction false} SingleOccurrence(s: seq<OTPMessage>, a: nat)
    requires a < |s| && DistinctCodes(s)
    ensures multiset(s)[s[a]] == 1
  {
    if |s| > 1 {
      var init := s[..|s| - 1];
      assert s == init + [s[|s| - 1]];
      if a < |s| - 1 {
        SingleOccurrence(init, a);
        assert s[|s| - 1] != s[a];
      } else {
        assert s[a] !in init by {
          forall k | 0 <= k < |init| ensures init[k] != s[a] {
            assert init[k].code != s[a].code;
          }
        }
      }
    }
  }

  /** Dedup then sort: lines 105-107 of the scan. */
  function Assemble(otps: seq<OTPMessage>): seq<OTPMessage> {
    SortNewestFirst(Dedup(otps))
  }

  /**
   * The assembled result has pairwise distinct codes, exactly the detected
   * codes, each carried by the first detection with that code, newest first.
   */
  lemma AssembleSpec(otps: seq<OTPMessage>)
    ensures DistinctCodes(Assemble(otps))
    ensures Codes(Assemble(otps)) == Codes(otps)
    ensures forall o :: o in Assemble(otps) ==> FirstWithCode(otps, o.code) == Some(o)
    ensures NewestFirst(Assemble(otps))
  {
    var d := Dedup(otps);
    var r := Assemble(otps);
    PermutationKeepsDistinct(d, r);
    DedupKeepsFirst(otps);
    assert forall o :: o in r <==> o in d by {
      assert forall o :: o in r <==> o in multiset(r);
      assert forall o :: o in d <==> o in multiset(d);
    }
  }

  /** The rows in the order the query returns them: newest first. */
  predicate RowsNewestFirst(rows: seq<Row>) {
    forall i, j :: 0 <= i < j < |rows| ==> rows[i].date >= rows[j].date
  }

  predicate MessagesNewestFirst(ms: seq<Message>) {
    forall i, j :: 0 <= i < j < |ms| ==> ms[i].date >= ms[j].date
  }

  lemma {:induction false} MessagesKeepOrder(rows: seq<Row>)
    requires RowsNewestFirst(rows)
    ensures MessagesNewestFirst(Messages(rows))
  {
    if rows != [] {
      var init := rows[..|rows| - 1];
      var last := rows[|rows| - 1];
      var ms := Messages(init);
      MessagesKeepOrder(init);
      forall m | m in ms ensures m.date >= last.date {
        var row :| row in init && m == MessageOf(row);
        var k :| 0 <= k < |init| && init[k] == row;
        assert rows[k] == row;
      }
      if RowText(last) != [] {
        AppendKeepsNewestFirst(ms, MessageOf(last));
        assert Messages(rows) == ms + [MessageOf(last)];
      } else {
        assert Messages(rows) == ms;
      }
    }
  }

  lemma AppendKeepsNewestFirst(ms: seq<Message>, x: Message)
    requires MessagesNewestFirst(ms)
    requires forall m :: m in ms ==> m.date >= x.date
    ensures MessagesNewestFirst(ms + [x])
  {
    var r := ms + [x];
    forall i, j | 0 <= i < j < |r| ensures r[i].date >= r[j].date {
      assert r[i] == ms[i];
      assert ms[i] in ms;
    }
  }

  lemma AppendKeepsNewestFirstOtp(otps: seq<OTPMessage>, x: OTPMessage)
    requires NewestFirst(otps)
    requires forall o :: o in otps ==> o.timestamp >= x.timestamp
    ensures NewestFirst(otps + [x])
  {
    var r := otps + [x];
    forall i, j | 0 <= i < j < |r| ensures r[i].timestamp >= r[j].timestamp {
      assert r[i] == otps[i];
      assert otps[i] in otps;
    }
  }

  lemma {:induction false} DetectionsKeepOrder(ms: seq<Message>)
    requires MessagesNewestFirst(ms)
    ensures NewestFirst(Detections(ms))
  {
    if ms != [] {
      var init := ms[..|ms| - 1];
      var last := ms[|ms| - 1];
      var otps := Detections(init);
      DetectionsKeepOrder(init);
      forall o | o in otps ensures o.timestamp >= last.date {
        var m :| m in init && Detector.Detect(m.text) == Some(o.code)
          && o == OTPMessage(o.code, m.sender, m.date, m.text);
        var k :| 0 <= k < |init| && init[k] == m;
        assert ms[k] == m;
      }
      match Detector.Detect(last.text)
      case Some(code) =>
        AppendKeepsNewestFirstOtp(otps, OTPMessage(code, last.sender, last.date, last.text));
      case None =>
    }
  }

  /**
   * With the rows newest first, as the query orders them, the record kept
   * for each code is the newest detection carrying that code.
   */
  lemma KeptRecordIsNewest(rows: seq<Row>)
    requires RowsNewestFirst(rows)
    ensures forall o, d :: (o in Assemble(Detections(Messages(rows))) && d in Detections(Messages(rows))
      && d.code == o.code) ==> d.timestamp <= o.timestamp
  {
    var otps := Detections(Messages(rows));
    MessagesKeepOrder(rows);
    DetectionsKeepOrder(Messages(rows));
    AssembleSpec(otps);
    forall o, d | o in Assemble(otps) && d in otps && d.code == o.code ensures d.timestamp <= o.timestamp {
      FirstIsNewest(otps, o, d);
    }
  }

  /** In a newest-first list, the first record with a code is at least as new as every other with that code. */
  lemma FirstIsNewest(otps: seq<OTPMessage>, o: OTPMessage, d: OTPMessage)
    requires NewestFirst(otps)
    requires FirstWithCode(otps, o.code) == Some(o)
    requires d in otps && d.code == o.code
    ensures d.timestamp <= o.timestamp
  {
    var i :| 0 <= i < |otps| && otps[i] == o && o.code == o.code
      && forall j :: 0 <= j < i ==> otps[j].code != o.code;
    var k :| 0 <= k < |otps| && otps[k] == d;
    assert i <= k;
  }

  /** `scanMessagesDatabase` as a function of the file system, the home directory and the user name. */
  function Scan(fs: FileSystem, home: string, userName: string): Result<seq<OTPMessage>, OTPError> {
    match FirstExisting(fs, CandidatePaths(home, userName))
    case None => Failure(DatabaseNotFound)
    case Some(path) => ScanDatabase(fs[path])
  }

  /**
   * The outcomes of a scan: not found exactly when neither candidate
   * exists; otherwise the first existing candidate is used, and an open or
   * prepare failure is an error with no partial list.
   */
  lemma ScanOutcomes(fs: FileSystem, home: string, userName: string)
    ensures Scan(fs, home, userName) == Failure(DatabaseNotFound) <==>
      home + ChatDatabase !in fs && "/Users/" + userName + ChatDatabase !in fs
    ensures home + ChatDatabase in fs ==>
      Scan(fs, home, userName) == ScanDatabase(fs[home + ChatDatabase])
    ensures home + ChatDatabase !in fs && "/Users/" + userName + ChatDatabase in fs ==>
      Scan(fs, home, userName) == ScanDatabase(fs["/Users/" + userName + ChatDatabase])
  {
    var paths := CandidatePaths(home, userName);
    assert paths[0] == home + ChatDatabase && paths[1] == "/Users/" + userName + ChatDatabase;
  }

  /** What a scan gives once a database file has been found. */
  function ScanDatabase(db: Database): (r: Result<seq<OTPMessage>, OTPError>)
    ensures !db.opens ==> r == Failure(DatabaseError(CannotOpen))
    ensures db.opens && !db.prepares ==> r == Failure(DatabaseError(CannotPrepare))
    ensures db.opens && db.prepares ==> (r.Success?
      && DistinctCodes(r.value)
      && Codes(r.value) == Codes(Detections(Messages(db.rows)))
      && (forall o :: o in r.value ==> FirstWithCode(Detections(Messages(db.rows)), o.code) == Some(o))
      && NewestFirst(r.value))
  {
    if !db.opens then Failure(DatabaseError(CannotOpen))
    else if !db.prepares then Failure(DatabaseError(CannotPrepare))
    else
      AssembleSpec(Detections(Messages(db.rows)));
      Success(Assemble(Detections(Messages(db.rows))))
  }

  /** A database whose query returns no rows gives an empty list. */
  lemma EmptyStoreGivesNothing(db: Database)
    requires db.opens && db.prepares && db.rows == []
    ensures ScanDatabase(db) == Success([])
  {
  }

  /** The path loop: the first candidate that exists. */
  method SelectPath(fs: FileSystem, possiblePaths: seq<string>) returns (dbPath: Option<string>)
    ensures dbPath == FirstExisting(fs, possiblePaths)
  {
    dbPath := None;
    var k := 0;
    while k < |possiblePaths|
      invariant 0 <= k <= |possiblePaths|
      invariant forall j :: 0 <= j < k ==> possiblePaths[j] !in fs
    {
      if possiblePaths[k] in fs {
        dbPath := Some(possiblePaths[k]);
        return;
      }
      k := k + 1;
    }
  }

  /** The final text of one row: the text column, else the decoded body. */
  method ReadRowText(row: Row) returns (finalText: string)
    ensures finalText == RowText(row)
  {
    finalText := "";
    if row.text.Some? {
      finalText := CString(row.text.value);
    }
    if finalText == [] && row.body.Some? {
      var blob := row.body.value;
      if |blob| > 0 {
        var parsedText := AttributedBody.ParseAttributedBody(blob, row.parsedBody);
        if parsedText.Some? {
          finalText := parsedText.value;
        }
      }
    }
  }

  /** The row loop: one message per row with non-empty final text, in row order. */
  method CollectMessages(rows: seq<Row>) returns (messages: seq<Message>)
    ensures messages == Messages(rows)
  {
    messages := [];
    var i := 0;
    while i < |rows|
      invariant 0 <= i <= |rows|
      invariant messages == Messages(rows[..i])
    {
      var row := rows[i];
      var finalText := ReadRowText(row);
      assert rows[..i + 1][..i] == rows[..i];
      if finalText != [] {
        messages := messages + [Message(finalText, CString(row.sender), row.date)];
      }
      i := i + 1;
    }
    assert rows[..i] == rows;
  }

  /** The detection loop: one record per message in which a code is found, in message order. */
  method DetectAll(messages: seq<Message>) returns (otps: seq<OTPMessage>)
    ensures otps == Detections(messages)
  {
    otps := [];
    var j := 0;
    while j < |messages|
      invariant 0 <= j <= |messages|
      invariant otps == Detections(messages[..j])
    {
      var message := messages[j];
      var code := Detector.FindOTPInText(message.text);
      assert messages[..j + 1][..j] == messages[..j];
      if code.Some? {
        otps := otps + [OTPMessage(code.value, message.sender, message.date, message.text)];
      }
      j := j + 1;
    }
    assert messages[..j] == messages;
  }

  /** `scanMessagesDatabase`: path selection, then the row loop, then the detection loop, then dedup and sort. */
  method ScanMessagesDatabase(fs: FileSystem, home: string, userName: string)
    returns (result: Result<seq<OTPMessage>, OTPError>)
    ensures result == Scan(fs, home, userName)
  {
    var dbPath := SelectPath(fs, CandidatePaths(home, userName));
    if dbPath.None? {
      return Failure(DatabaseNotFound);
    }
    var db := fs[dbPath.value];
    if !db.opens {
      return Failure(DatabaseError(CannotOpen));
    }
    if !db.prepares {
      return Failure(DatabaseError(CannotPrepare));
    }
    var messages := CollectMessages(db.rows);
    var otps := DetectAll(messages);
    result := Success(Assemble(otps));
  }
}
