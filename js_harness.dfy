/**
 * The test harness's own view of a client directory (testing/libs/server.js,
 * `readIndexFile` and `isIndexFileHashesMatchLocalFileHashes`): a second
 * reader of the index file and a second chunker, written in JavaScript,
 * against which the client's index is checked.
 */
module TestHarness {
  import opened Wrappers
  import opened Interfaces
  import opened Chunking
  import opened GoText
  import opened IndexFile
  import opened LocalChanges

  /**
   * The characters `String.prototype.trim` removes: JavaScript's white space
   * (tab, vertical tab, form feed, no-break space, the byte order mark and the
   * space separators) and its line terminators.
   */
  predicate IsJsSpace(c: char) {
    c == '\t' || c == '\U{0B}' || c == '\U{0C}' || c == ' ' || c == '\U{A0}' || c == '\U{FEFF}' ||
    c == '\U{1680}' || ('\U{2000}' <= c <= '\U{200A}') || c == '\U{202F}' || c == '\U{205F}' || c == '\U{3000}' ||
    c == '\n' || c == '\r' || c == '\U{2028}' || c == '\U{2029}'
  }

  predicate JsNoSpace(s: string) {
    forall i :: 0 <= i < |s| ==> !IsJsSpace(s[i])
  }

  function JsTrimStart(s: string): (r: string)
    ensures |r| <= |s| && r == s[|s| - |r|..]
    ensures |r| > 0 ==> !IsJsSpace(r[0])
    decreases |s|
  {
    if |s| > 0 && IsJsSpace(s[0]) then JsTrimStart(s[1..]) else s
  }

  function JsTrimEnd(s: string): (r: string)
    ensures |r| <= |s| && r == s[..|r|]
    ensures |r| > 0 ==> !IsJsSpace(r[|r| - 1])
    decreases |s|
  {
    if |s| > 0 && IsJsSpace(s[|s| - 1]) then JsTrimEnd(s[..|s| - 1]) else s
  }

  lemma JsTrimStartPlain(s: string)
    requires |s| > 0 && !IsJsSpace(s[0])
    ensures JsTrimStart(s) == s
  {
  }

  /** `String.prototype.trim`. */
  function JsTrim(s: string): string {
    JsTrimEnd(JsTrimStart(s))
  }

  /** A string that neither starts nor ends with white space is its own trim. */
  lemma JsTrimOfTrimmed(s: string)
    requires |s| > 0 ==> !IsJsSpace(s[0]) && !IsJsSpace(s[|s| - 1])
    ensures JsTrim(s) == s
  {
  }

  /** One trailing newline is trimmed away. */
  lemma JsTrimOfNewlineEnded(s: string)
    requires |s| > 0 && !IsJsSpace(s[0]) && !IsJsSpace(s[|s| - 1])
    ensures JsTrim(s + "\n") == s
  {
    var t := s + "\n";
    assert t[0] == s[0];
    assert JsTrimStart(t) == t;
    assert t[..|t| - 1] == s;
    assert JsTrimEnd(t) == JsTrimEnd(s);
  }

  predicate IsJsDigit(c: char, radix: nat) {
    if radix == 16 then '0' <= c <= '9' || 'a' <= c <= 'f' || 'A' <= c <= 'F' else '0' <= c <= '9'
  }

  function DigitWeight(c: char): nat {
    if '0' <= c <= '9' then c as int - '0' as int
    else if 'a' <= c <= 'f' then c as int - 'a' as int + 10
    else if 'A' <= c <= 'F' then c as int - 'A' as int + 10
    else 0
  }

  /** The value of a run of digits in base `radix`, most significant first. */
  function RadixValue(s: string, radix: nat): nat
    decreases |s|
  {
    if |s| == 0 then 0 else RadixValue(s[..|s| - 1], radix) * radix + DigitWeight(s[|s| - 1])
  }

  /** The length of the longest prefix of `s` made of digits in base `radix`. */
  function DigitPrefix(s: string, radix: nat): (n: nat)
    ensures n <= |s|
    ensures forall i :: 0 <= i < n ==> IsJsDigit(s[i], radix)
    ensures n < |s| ==> !IsJsDigit(s[n], radix)
    decreases |s|
  {
    if |s| > 0 && IsJsDigit(s[0], radix) then 1 + DigitPrefix(s[1..], radix) else 0
  }

  /**
   * `parseInt` after the sign: a "0x" or "0X" prefix selects base 16, and the
   * longest run of digits that follows is read; no digits give NaN (`None`).
   */
  function JsParseUnsigned(u: string): (r: Option<nat>)
    ensures r.Some? ==> |u| > 0
  {
    var hex := |u| >= 2 && u[0] == '0' && (u[1] == 'x' || u[1] == 'X');
    var radix := if hex then 16 else 10;
    var digits := if hex then u[2..] else u;
    var n := DigitPrefix(digits, radix);
    if n == 0 then None else Some(RadixValue(digits[..n], radix))
  }

  /** `parseInt` after leading white space: one sign, then the digits. */
  function JsParseSigned(t: string): (r: Option<int>)
  {
    if |t| > 0 && (t[0] == '-' || t[0] == '+') then
      match JsParseUnsigned(t[1..])
      case None => None
      case Some(magnitude) => Some(if t[0] == '-' then 0 - magnitude else magnitude)
    else
      match JsParseUnsigned(t)
      case None => None
      case Some(magnitude) => Some(magnitude)
  }

  /** `parseInt` without a radix: leading white space is skipped before the sign and the digits. */
  function JsParseInt(s: string): (r: Option<int>)
  {
    JsParseSigned(JsTrimStart(s))
  }

  /** A run of decimal digits is read as its value. */
  lemma JsParseDecimal(digits: string)
    requires IsDecimal(digits)
    ensures JsParseUnsigned(digits) == Some(DigitsValue(digits))
  {
    assert |digits| >= 2 ==> IsDigit(digits[1]);
    DecimalPrefix(digits);
    DecimalValue(digits);
    assert digits[..|digits|] == digits;
  }

  lemma {:induction false} DecimalValue(s: string)
    requires forall i :: 0 <= i < |s| ==> IsDigit(s[i])
    ensures RadixValue(s, 10) == DigitsValue(s)
    decreases |s|
  {
    if |s| > 0 {
      DecimalValue(s[..|s| - 1]);
    }
  }

  lemma {:induction false} DecimalPrefix(s: string)
    requires forall i :: 0 <= i < |s| ==> IsDigit(s[i])
    ensures DigitPrefix(s, 10) == |s|
    decreases |s|
  {
    if |s| > 0 {
      DecimalPrefix(s[1..]);
    }
  }

  /** An unsigned run of decimal digits is read as its value. */
  lemma JsParseDigits(digits: string)
    requires IsDecimal(digits)
    ensures JsParseInt(digits) == Some(DigitsValue(digits))
  {
    assert IsDigit(digits[0]);
    JsTrimStartPlain(digits);
    JsParseDecimal(digits);
    assert JsParseSigned(digits) == Some(DigitsValue(digits));
  }

  /** A minus sign and a run of decimal digits are read as the negated value. */
  lemma JsParseNegated(s: string)
    requires |s| > 0 && s[0] == '-' && IsDecimal(s[1..])
    ensures JsParseInt(s) == Some(-(DigitsValue(s[1..]) as int))
  {
    JsTrimStartPlain(s);
    JsParseDecimal(s[1..]);
    assert JsParseSigned(s) == Some(-(DigitsValue(s[1..]) as int));
  }

  lemma JsParseItoaNegative(v: int)
    requires v < 0
    ensures JsParseInt(Itoa(v)) == Some(v)
  {
    var s := Itoa(v);
    assert s[1..] == NatToDigits(-v);
    DigitsRoundTrip(-v);
    assert DigitsValue(s[1..]) == -v;
    JsParseNegated(s);
  }

  lemma JsParseItoaNatural(v: int)
    requires v >= 0
    ensures JsParseInt(Itoa(v)) == Some(v)
  {
    DigitsRoundTrip(v);
    JsParseDigits(Itoa(v));
  }

  /** `parseInt` reads back every integer the client prints into its index. */
  lemma JsParseIntItoa(v: int)
    ensures JsParseInt(Itoa(v)) == Some(v)
  {
    if v < 0 {
      JsParseItoaNegative(v);
    } else {
      JsParseItoaNatural(v);
    }
  }

  /** A record as the harness reads it: the version is a number, possibly NaN. */
  datatype JsRecord = JsRecord(fileName: string, version: Option<int>, hashList: seq<string>)

  /** Every piece trimmed. */
  function JsTrimAll(pieces: seq<string>): (r: seq<string>)
    ensures |r| == |pieces| && forall i :: 0 <= i < |pieces| ==> r[i] == JsTrim(pieces[i])
  {
    seq(|pieces|, i requires 0 <= i < |pieces| => JsTrim(pieces[i]))
  }

  /** The record of a line's first three comma-separated parts; the hashes are split at blanks and trimmed. */
  function JsRecordOf(parts: seq<string>): (rec: JsRecord)
    requires |parts| >= 3
    ensures rec.fileName == parts[0]
  {
    JsRecord(parts[0], JsParseInt(parts[1]), JsTrimAll(Split(parts[2], ' ')))
  }

  /**
   * One line of the index: an empty line is skipped; a line with fewer than
   * three comma-separated parts throws (its hash list is undefined); extra
   * parts are ignored.
   */
  function JsParseLine(line: string): (r: Result<Option<JsRecord>>)
    ensures r.Failure? <==> line != "" && |Split(line, ',')| < 3
    ensures r.Success? ==> (r.value.None? <==> line == "")
    ensures r.Success? && r.value.Some? ==> r.value.value.fileName == Split(line, ',')[0]
  {
    if line == "" then Success(None)
    else
      var parts := Split(line, ',');
      if |parts| < 3 then Failure("hashList is undefined") else Success(Some(JsRecordOf(parts)))
  }

  /** `lines.map(...)`: every line parsed in turn; a line that throws ends the read. */
  function JsParseLines(lines: seq<string>): (r: Result<seq<Option<JsRecord>>>)
    ensures r.Failure? <==> exists i :: 0 <= i < |lines| && JsParseLine(lines[i]).Failure?
    ensures r.Success? ==> |r.value| == |lines| && forall i :: 0 <= i < |lines| ==> r.value[i] == JsParseLine(lines[i]).value
    decreases |lines|
  {
    if lines == [] then Success([])
    else
      match JsParseLine(lines[0])
      case Failure(e) => Failure(e)
      case Success(first) =>
        match JsParseLines(lines[1..])
        case Failure(e) => Failure(e)
        case Success(rest) =>
          assert forall i :: 0 < i < |lines| ==> lines[i] == lines[1..][i - 1];
          Success([first] + rest)
  }

  /** `.filter((v) => v)`: the records of the non-empty lines, in order. */
  function JsKept(parsed: seq<Option<JsRecord>>): seq<JsRecord>
    decreases |parsed|
  {
    if parsed == [] then []
    else
      var last := parsed[|parsed| - 1];
      JsKept(parsed[..|parsed| - 1]) + if last.Some? then [last.value] else []
  }

  /** `.reduce(...)`: each record stored under its name, a later record for a name replacing an earlier one. */
  function JsReduce(records: seq<JsRecord>): map<string, JsRecord>
    decreases |records|
  {
    if records == [] then map[]
    else
      var last := records[|records| - 1];
      JsReduce(records[..|records| - 1])[last.fileName := last]
  }

  /** The harness's `readIndexFile` on the text of the index file. */
  function JsReadIndexFile(content: string): Result<map<string, JsRecord>> {
    match JsParseLines(Split(JsTrim(content), '\n'))
    case Failure(e) => Failure(e)
    case Success(parsed) => Success(JsReduce(JsKept(parsed)))
  }

  /** The filter keeps exactly the records present, in order. */
  lemma {:induction false} JsKeptShape(parsed: seq<Option<JsRecord>>)
    ensures forall i :: 0 <= i < |parsed| && parsed[i].Some? ==> parsed[i].value in JsKept(parsed)
    ensures forall rec :: rec in JsKept(parsed) ==> Some(rec) in parsed
    ensures (forall i :: 0 <= i < |parsed| ==> parsed[i].Some?) ==> |JsKept(parsed)| == |parsed|
    ensures (forall i :: 0 <= i < |parsed| ==> parsed[i].Some?) ==>
      forall i :: 0 <= i < |parsed| ==> JsKept(parsed)[i] == parsed[i].value
    decreases |parsed|
  {
    if parsed != [] {
      var init := parsed[..|parsed| - 1];
      JsKeptShape(init);
      assert forall i :: 0 <= i < |init| ==> init[i] == parsed[i];
      assert parsed == init + [parsed[|parsed| - 1]];
    }
  }

  /** The reduction stores every record under its own name, and only those names. */
  lemma {:induction false} JsReduceShape(records: seq<JsRecord>)
    ensures forall k :: k in JsReduce(records) ==> JsReduce(records)[k].fileName == k
    ensures forall k :: k in JsReduce(records) <==> exists i :: 0 <= i < |records| && records[i].fileName == k
    decreases |records|
  {
    if records != [] {
      var init := records[..|records| - 1];
      JsReduceShape(init);
      assert forall i :: 0 <= i < |init| ==> init[i] == records[i];
    }
  }

  /** The record stored for a name is the last one carrying it. */
  lemma {:induction false} JsReduceLastWins(records: seq<JsRecord>, j: nat)
    requires j < |records|
    requires forall i :: j < i < |records| ==> records[i].fileName != records[j].fileName
    ensures records[j].fileName in JsReduce(records)
    ensures JsReduce(records)[records[j].fileName] == records[j]
    decreases |records|
  {
    var init := records[..|records| - 1];
    if j < |records| - 1 {
      assert forall i :: 0 <= i < |init| ==> init[i] == records[i];
      JsReduceLastWins(init, j);
    }
  }

  /** A record tombstoned in the index: its hash list is the single hash "0". */
  predicate JsTombstone(rec: JsRecord) {
    |rec.hashList| == 1 && rec.hashList[0] == TombstoneHash
  }

  /** The records the check looks at: the ones not tombstoned. */
  function LiveRecords(index: map<string, JsRecord>): (live: map<string, JsRecord>)
    ensures live.Keys <= index.Keys
    ensures forall k :: k in live <==> k in index && !JsTombstone(index[k])
  {
    map k | k in index && !JsTombstone(index[k]) :: index[k]
  }

  /** A record agrees with the directory: its file exists and its hashes are those of the file's blocks, in order. */
  predicate RecordMatches(rec: JsRecord, dir: map<string, seq<byte>>, blockSize: nat, h: Hasher)
    requires blockSize > 0
  {
    rec.fileName in dir && rec.hashList == HashesOf(Chunks(dir[rec.fileName], blockSize), h)
  }

  /**
   * What the check accepts: one live record per file of the directory besides
   * the index file, each agreeing with its file.
   */
  predicate HarnessAccepts(index: map<string, JsRecord>, dir: map<string, seq<byte>>, blockSize: nat, h: Hasher)
    requires blockSize > 0
  {
    var live := LiveRecords(index);
    |live| == |dir| - 1 &&
    forall k :: k in live ==> RecordMatches(live[k], dir, blockSize, h)
  }

  const CountMessage: string := "Number of index file records does not equal to number of local files"

  /** The message the check gives for a record that disagrees with the directory. */
  function RecordMessage(rec: JsRecord, dir: map<string, seq<byte>>, blockSize: nat, h: Hasher): string
    requires blockSize > 0
  {
    if rec.fileName !in dir then "File " + rec.fileName + ": does not exist in local storage"
    else if |Chunks(dir[rec.fileName], blockSize)| != |rec.hashList| then
      "File " + rec.fileName + ": hash list length does not equal to file blocks length"
    else "File " + rec.fileName + ": hash lists mismatch"
  }

  /** Taking the next slice from position `i` keeps the slices read so far a prefix of all of them. */
  lemma SlicesStep(buf: seq<byte>, blockSize: nat, i: nat, done: seq<seq<byte>>)
    requires blockSize > 0 && i < |buf|
    requires Slices(buf, blockSize) == done + Slices(buf[i..], blockSize)
    ensures var j := Min(i + blockSize, |buf|);
      Slices(buf, blockSize) == (done + [buf[i..j]]) + Slices(buf[j..], blockSize)
  {
    var j := Min(i + blockSize, |buf|);
    var rest := buf[i..];
    var n := Min(blockSize, |rest|);
    assert rest[..n] == buf[i..j];
    assert rest[n..] == buf[j..];
    assert Slices(rest, blockSize) == [buf[i..j]] + Slices(buf[j..], blockSize);
  }

  /**
   * The harness's chunker: one empty block for an empty buffer, otherwise
   * slices from every multiple of the block size up to the next one or the
   * end of the buffer. It yields the client's chunks.
   */
  method ReferenceChunks(buf: seq<byte>, blockSize: nat) returns (fileBlocks: seq<seq<byte>>)
    requires blockSize > 0
    ensures fileBlocks == Chunks(buf, blockSize)
  {
    fileBlocks := if |buf| > 0 then [] else [[]];
    if |buf| == 0 {
      return;
    }
    var i := 0;
    while i < |buf|
      invariant Slices(buf, blockSize) == fileBlocks + Slices(buf[Min(i, |buf|)..], blockSize)
      decreases |buf| - i
    {
      var j := Min(i + blockSize, |buf|);
      SlicesStep(buf, blockSize, i, fileBlocks);
      fileBlocks := fileBlocks + [buf[i..j]];
      i := i + blockSize;
    }
  }

  /** The hash comparison of one record, stopping at the first disagreement. */
  method HashesAgree(blocks: seq<seq<byte>>, hashList: seq<string>, h: Hasher) returns (agree: bool)
    requires |blocks| == |hashList|
    ensures agree <==> hashList == HashesOf(blocks, h)
  {
    for i := 0 to |blocks|
      invariant forall j :: 0 <= j < i ==> h(blocks[j]) == hashList[j]
    {
      if h(blocks[i]) != hashList[i] {
        return false;
      }
    }
    return true;
  }

  /** The check of one live record; `None` when it agrees with the directory. */
  method CheckRecord(rec: JsRecord, dir: map<string, seq<byte>>, blockSize: nat, h: Hasher) returns (msg: Option<string>)
    requires blockSize > 0
    ensures msg.None? <==> RecordMatches(rec, dir, blockSize, h)
    ensures msg.Some? ==> msg.value == RecordMessage(rec, dir, blockSize, h)
  {
    if rec.fileName !in dir {
      return Some("File " + rec.fileName + ": does not exist in local storage");
    }
    var fileBlocks := ReferenceChunks(dir[rec.fileName], blockSize);
    if |fileBlocks| != |rec.hashList| {
      return Some("File " + rec.fileName + ": hash list length does not equal to file blocks length");
    }
    var agree := HashesAgree(fileBlocks, rec.hashList, h);
    if !agree {
      return Some("File " + rec.fileName + ": hash lists mismatch");
    }
    return None;
  }

  /**
   * `isIndexFileHashesMatchLocalFileHashes` on a directory `dir` (file name to
   * content, the index file included) whose index file reads as `indexText`:
   * a missing index file or an unreadable line throws (`Failure`); otherwise
   * the result is null (`None`) exactly when the check accepts, the count
   * message when the number of live records is off, and else the message of
   * some live record that disagrees with its file.
   */
  method IsIndexFileHashesMatchLocalFileHashes(dir: map<string, seq<byte>>, indexText: string, blockSize: nat, h: Hasher)
    returns (r: Result<Option<string>>)
    requires blockSize > 0
    ensures r.Failure? <==> IndexFileName !in dir || JsReadIndexFile(indexText).Failure?
    ensures r.Success? ==>
      var live := LiveRecords(JsReadIndexFile(indexText).value);
      (r.value.None? <==> HarnessAccepts(JsReadIndexFile(indexText).value, dir, blockSize, h)) &&
      (|live| != |dir| - 1 ==> r.value == Some(CountMessage)) &&
      (|live| == |dir| - 1 && r.value.Some? ==>
        exists k :: k in live && !RecordMatches(live[k], dir, blockSize, h) &&
          r.value.value == RecordMessage(live[k], dir, blockSize, h))
  {
    if IndexFileName !in dir {
      return Failure("ENOENT: no such file or directory, open 'index.txt'");
    }
    var read := JsReadIndexFile(indexText);
    if read.Failure? {
      return Failure(read.error);
    }
    var index := LiveRecords(read.value);
    if |index| != |dir| - 1 {
      return Success(Some(CountMessage));
    }
    var pending := index.Keys;
    while pending != {}
      invariant pending <= index.Keys
      invariant forall k :: k in index && k !in pending ==> RecordMatches(index[k], dir, blockSize, h)
      decreases pending
    {
      var k :| k in pending;
      var msg := CheckRecord(index[k], dir, blockSize, h);
      if msg.Some? {
        return Success(msg);
      }
      pending := pending - {k};
    }
    return Success(None);
  }

  /** The record the harness reads for a record the client writes. */
  function JsView(meta: FileMetaData): JsRecord {
    JsRecord(meta.filename, Some(meta.version), meta.blockHashList)
  }

  /**
   * A record both readers take back unchanged: serializable for the client,
   * with a name that does not start with JavaScript white space and hashes
   * without any.
   */
  ghost predicate JsSerializable(meta: FileMetaData) {
    Serializable(meta) &&
    (|meta.filename| > 0 ==> !IsJsSpace(meta.filename[0])) &&
    forall i :: 0 <= i < |meta.blockHashList| ==> JsNoSpace(meta.blockHashList[i])
  }

  /** Hashes without white space survive trimming. */
  lemma JsTrimAllPlain(hs: seq<string>)
    requires forall i :: 0 <= i < |hs| ==> JsNoSpace(hs[i])
    ensures JsTrimAll(hs) == hs
  {
    forall i | 0 <= i < |hs| ensures JsTrim(hs[i]) == hs[i] {
      JsTrimOfTrimmed(hs[i]);
    }
  }

  /** A blank-separated hash list without white space, split and trimmed, gives the hashes back. */
  lemma JsHashesBack(hs: seq<string>)
    requires |hs| > 0
    requires forall i :: 0 <= i < |hs| ==> JsNoSpace(hs[i])
    ensures JsTrimAll(Split(Join(hs, ' '), ' ')) == hs
  {
    forall i | 0 <= i < |hs| ensures ' ' !in hs[i] {
      assert JsNoSpace(hs[i]);
    }
    SplitJoin(hs, ' ');
    JsTrimAllPlain(hs);
  }

  /** The parts of a written line make the harness's view of the record. */
  lemma JsRecordOfParts(meta: FileMetaData)
    requires JsSerializable(meta)
    ensures JsRecordOf([meta.filename, Itoa(meta.version), Join(meta.blockHashList, ' ')]) == JsView(meta)
  {
    JsHashesBack(meta.blockHashList);
    JsParseIntItoa(meta.version);
  }

  /** The harness reads a written line as the record written. */
  lemma JsParseLineOf(meta: FileMetaData)
    requires JsSerializable(meta)
    ensures JsParseLine(LineOf(meta)) == Success(Some(JsView(meta)))
  {
    LineParts(meta);
    JsLineEnds(meta);
    JsRecordOfParts(meta);
  }

  lemma {:induction false} SplitTerminatedThen(lines: seq<string>, tail: string)
    requires forall i :: 0 <= i < |lines| ==> '\n' !in lines[i]
    requires '\n' !in tail
    ensures Split(Terminated(lines) + tail, '\n') == lines + [tail]
    decreases |lines|
  {
    if lines == [] {
      SplitWithoutSep(tail, '\n');
      assert Terminated(lines) + tail == tail;
    } else {
      SplitTerminatedThen(lines[1..], tail);
      assert Terminated(lines) + tail == lines[0] + ['\n'] + (Terminated(lines[1..]) + tail);
      SplitAtFirstSep(lines[0], '\n', Terminated(lines[1..]) + tail);
      assert [lines[0]] + lines[1..] == lines;
    }
  }

  lemma LastSplit<T>(s: seq<T>)
    requires |s| > 0
    ensures s == s[..|s| - 1] + [s[|s| - 1]]
  {
  }

  /** A non-empty string that neither starts nor ends with white space. */
  predicate JsPlainEnds(s: string) {
    |s| > 0 && !IsJsSpace(s[0]) && !IsJsSpace(s[|s| - 1])
  }

  /** Newline-terminated lines without surrounding white space, trimmed and split at newlines, give the lines back. */
  lemma JsLinesOfTerminated(lines: seq<string>)
    requires |lines| > 0
    requires forall i :: 0 <= i < |lines| ==> '\n' !in lines[i] && JsPlainEnds(lines[i])
    ensures Split(JsTrim(Terminated(lines)), '\n') == lines
  {
    var n := |lines| - 1;
    var init, last := lines[..n], lines[n];
    LastSplit(lines);
    TerminatedSnoc(init, last);
    var body := Terminated(init) + last;
    assert JsPlainEnds(lines[0]) && JsPlainEnds(last);
    assert body[0] == lines[0][0] by {
      if init != [] {
        assert Terminated(init) == init[0] + "\n" + Terminated(init[1..]);
      }
    }
    assert body[|body| - 1] == last[|last| - 1];
    assert Terminated(lines) == body + "\n";
    JsTrimOfNewlineEnded(body);
    SplitTerminatedThen(init, last);
  }

  /** A written line starts and ends with characters the harness does not trim. */
  lemma JsLineEnds(meta: FileMetaData)
    requires JsSerializable(meta)
    ensures JsPlainEnds(LineOf(meta))
  {
    LineOfSerializable(meta);
    var line := LineOf(meta);
    if |meta.filename| > 0 { assert line[0] == meta.filename[0]; } else { assert line[0] == ','; }
    var hs := meta.blockHashList;
    JoinLast(hs, ' ');
    var last := hs[|hs| - 1];
    assert JsNoSpace(last);
    assert line[|line| - 1] == last[|last| - 1];
  }

  /** An empty index file reads as no records. */
  lemma JsReadsEmptyIndex()
    ensures JsReadIndexFile("") == Success(map[])
  {
    assert JsTrim("") == "";
    assert Split("", '\n') == [""];
    assert [""][1..] == [];
    var none: seq<Option<JsRecord>> := [];
    var parsed: seq<Option<JsRecord>> := [None];
    assert JsParseLine("") == Success(None);
    assert JsParseLines([""][1..]) == Success(none);
    assert [None] + none == parsed;
    assert JsParseLines([""]) == Success(parsed);
    assert parsed[..0] == [];
    assert JsKept(parsed) == [];
  }

  /** The records of a map, one per key, reduce back to the map. */
  lemma {:induction false} JsReduceViews(records: seq<JsRecord>, order: seq<string>, m: map<string, FileMetaData>)
    requires |records| == |order|
    requires forall i :: 0 <= i < |order| ==>
      order[i] in m && m[order[i]].filename == order[i] && records[i] == JsView(m[order[i]])
    ensures forall k :: k in JsReduce(records) <==> k in order
    ensures forall k :: k in JsReduce(records) ==> JsReduce(records)[k] == JsView(m[k])
    decreases |records|
  {
    if records != [] {
      var n := |records| - 1;
      JsReduceViews(records[..n], order[..n], m);
      assert order == order[..n] + [order[n]];
    }
  }

  /** The harness splits a non-empty written index file back into its lines. */
  lemma JsSplitsWrittenLines(m: map<string, FileMetaData>, order: seq<string>)
    requires |order| > 0
    requires forall i :: 0 <= i < |order| ==> order[i] in m && JsSerializable(m[order[i]])
    ensures Split(JsTrim(IndexText(m, order)), '\n') == Lines(m, order)
  {
    var lines := Lines(m, order);
    forall i | 0 <= i < |lines| ensures '\n' !in lines[i] && JsPlainEnds(lines[i]) {
      LineOfIsOneLine(m[order[i]]);
      JsLineEnds(m[order[i]]);
    }
    JsLinesOfTerminated(lines);
  }

  /** The harness parses every written line as the record written. */
  lemma JsParsesWrittenLines(m: map<string, FileMetaData>, order: seq<string>)
    requires forall i :: 0 <= i < |order| ==> order[i] in m && JsSerializable(m[order[i]])
    ensures JsParseLines(Lines(m, order)).Success?
    ensures forall i :: 0 <= i < |order| ==> JsParseLines(Lines(m, order)).value[i] == Some(JsView(m[order[i]]))
  {
    var lines := Lines(m, order);
    forall i | 0 <= i < |lines| ensures JsParseLine(lines[i]) == Success(Some(JsView(m[order[i]]))) {
      JsParseLineOf(m[order[i]]);
    }
  }

  /** Parsed lines that are all records are filtered and reduced to the views of the records named. */
  lemma JsReducesParsedViews(parsed: seq<Option<JsRecord>>, order: seq<string>, m: map<string, FileMetaData>)
    requires |parsed| == |order|
    requires forall i :: 0 <= i < |order| ==>
      order[i] in m && m[order[i]].filename == order[i] && parsed[i] == Some(JsView(m[order[i]]))
    ensures forall k :: k in JsReduce(JsKept(parsed)) <==> k in order
    ensures forall k :: k in JsReduce(JsKept(parsed)) ==> JsReduce(JsKept(parsed))[k] == JsView(m[k])
  {
    JsKeptShape(parsed);
    JsReduceViews(JsKept(parsed), order, m);
  }

  lemma ViewsOfAll(r: map<string, JsRecord>, order: seq<string>, m: map<string, FileMetaData>)
    requires Enumerates(order, m.Keys)
    requires forall k :: k in r <==> k in order
    requires forall k :: k in r ==> k in m && r[k] == JsView(m[k])
    ensures r == map k | k in m :: JsView(m[k])
  {
  }

  /**
   * The harness reads the client's index file as the client wrote it: for
   * every map of records both readers carry unchanged, written in any key
   * order, the harness's reader gives each name its record, the version a
   * number.
   */
  lemma JsReadsClientIndex(m: map<string, FileMetaData>, order: seq<string>)
    requires WellKeyed(m)
    requires forall k :: k in m ==> JsSerializable(m[k])
    requires Enumerates(order, m.Keys)
    ensures JsReadIndexFile(IndexText(m, order)) == Success(map k | k in m :: JsView(m[k]))
  {
    if order == [] {
      assert IndexText(m, order) == "";
      JsReadsEmptyIndex();
      assert m == map[];
    } else {
      JsSplitsWrittenLines(m, order);
      JsParsesWrittenLines(m, order);
      var parsed := JsParseLines(Lines(m, order)).value;
      JsReducesParsedViews(parsed, order, m);
      var r := JsReduce(JsKept(parsed));
      assert JsReadIndexFile(IndexText(m, order)) == Success(r);
      ViewsOfAll(r, order, m);
    }
  }
}
