/**
 * The client's local index file (src/surfstore/SurfstoreClientUtils.go,
 * `readIndexFile` and `writeindexFile`): one line `name,version,h1 h2 ... hn`
 * per record.
 */
module IndexFile {
  import opened Wrappers
  import opened Interfaces
  import opened GoText

  /** The line `writeindexFile` writes for one record, before its newline. */
  function LineOf(meta: FileMetaData): string {
    TrimSpace(meta.filename + "," + Itoa(meta.version) + "," + Spaced(meta.blockHashList))
  }

  /** Each hash followed by one blank. */
  function Spaced(hashes: seq<string>): string
    decreases |hashes|
  {
    if hashes == [] then "" else Spaced(hashes[..|hashes| - 1]) + hashes[|hashes| - 1] + " "
  }

  /** A line of the index as read: exactly three comma-separated parts, else nothing. */
  function ParseLine(line: string): (r: Option<FileMetaData>)
    ensures r.Some? <==> |Split(line, ',')| == 3
  {
    var lineParts := Split(line, ',');
    if |lineParts| == 3 then
      Some(FileMetaData(lineParts[0], Atoi(lineParts[1]), Split(lineParts[2], ' ')))
    else None
  }

  /** The map the scanner loop builds from the lines read so far; a later line for a name replaces an earlier one. */
  function IndexOfLines(lines: seq<string>): (r: Result<map<string, FileMetaData>>)
    ensures r.Failure? ==> r.error == "Invalid index.txt"
    decreases |lines|
  {
    if lines == [] then Success(map[])
    else
      match IndexOfLines(lines[..|lines| - 1])
      case Failure(e) => Failure(e)
      case Success(m) =>
        match ParseLine(lines[|lines| - 1])
        case None => Failure("Invalid index.txt")
        case Some(md) => Success(m[md.filename := md])
  }

  /** The index map of an index file's text. */
  function ParseIndex(text: string): Result<map<string, FileMetaData>> {
    IndexOfLines(ScanLines(text))
  }

  /**
   * Reading fails exactly when some line does not have three comma-separated
   * parts; otherwise every record is stored under its own name, and the names
   * are those of the lines.
   */
  lemma {:induction false} IndexOfLinesShape(lines: seq<string>)
    ensures IndexOfLines(lines).Failure? <==>
      exists i :: 0 <= i < |lines| && ParseLine(lines[i]).None?
    ensures IndexOfLines(lines).Success? ==>
      WellKeyed(IndexOfLines(lines).value) &&
      forall k :: k in IndexOfLines(lines).value <==>
        exists i :: 0 <= i < |lines| && ParseLine(lines[i]).Some? && ParseLine(lines[i]).value.filename == k
    decreases |lines|
  {
    if lines != [] {
      var init := lines[..|lines| - 1];
      IndexOfLinesShape(init);
      assert forall i :: 0 <= i < |init| ==> init[i] == lines[i];
    }
  }

  /** The record stored for a name is the one of the last line naming it. */
  lemma {:induction false} LastLineWins(lines: seq<string>, j: nat)
    requires IndexOfLines(lines).Success?
    requires j < |lines| && ParseLine(lines[j]).Some?
    requires forall i :: j < i < |lines| && ParseLine(lines[i]).Some? ==>
      ParseLine(lines[i]).value.filename != ParseLine(lines[j]).value.filename
    ensures ParseLine(lines[j]).value.filename in IndexOfLines(lines).value
    ensures IndexOfLines(lines).value[ParseLine(lines[j]).value.filename] == ParseLine(lines[j]).value
    decreases |lines|
  {
    var init := lines[..|lines| - 1];
    if j < |lines| - 1 {
      assert forall i :: 0 <= i < |init| ==> init[i] == lines[i];
      LastLineWins(init, j);
    }
  }

  /**
   * `readIndexFile`: scans the index text line by line into a map; a line
   * without exactly three comma-separated parts panics, modelled as `Failure`.
   */
  method ReadIndexFile(text: string) returns (r: Result<map<string, FileMetaData>>)
    ensures r == ParseIndex(text)
  {
    var lines := ScanLines(text);
    var fileMetaMap: map<string, FileMetaData> := map[];
    var i := 0;
    while i < |lines|
      invariant 0 <= i <= |lines|
      invariant IndexOfLines(lines[..i]) == Success(fileMetaMap)
    {
      var lineParts := Split(lines[i], ',');
      assert lines[..i + 1][..i] == lines[..i];
      if |lineParts| == 3 {
        var filename := lineParts[0];
        var version := Atoi(lineParts[1]);
        var blockHashList := Split(lineParts[2], ' ');
        fileMetaMap := fileMetaMap[filename := FileMetaData(filename, version, blockHashList)];
      } else {
        assert ParseLine(lines[i]).None?;
        IndexOfLinesShape(lines);
        return Failure("Invalid index.txt");
      }
      i := i + 1;
    }
    assert lines[..i] == lines;
    r := Success(fileMetaMap);
  }

  /** `order` lists every key of `keys` exactly once. */
  ghost predicate Enumerates(order: seq<string>, keys: set<string>) {
    (forall i, j :: 0 <= i < j < |order| ==> order[i] != order[j]) &&
    (forall k :: k in keys <==> k in order)
  }

  /** The lines of the records named by `order`, in that order. */
  function Lines(m: map<string, FileMetaData>, order: seq<string>): (lines: seq<string>)
    requires forall i :: 0 <= i < |order| ==> order[i] in m
    ensures |lines| == |order|
  {
    seq(|order|, i requires 0 <= i < |order| => LineOf(m[order[i]]))
  }

  /** The index file text for the map `m` written in the key order `order`. */
  function IndexText(m: map<string, FileMetaData>, order: seq<string>): string
    requires forall i :: 0 <= i < |order| ==> order[i] in m
  {
    Terminated(Lines(m, order))
  }

  lemma IndexTextSnoc(m: map<string, FileMetaData>, order: seq<string>, key: string)
    requires forall i :: 0 <= i < |order| ==> order[i] in m
    requires key in m
    ensures IndexText(m, order + [key]) == IndexText(m, order) + LineOf(m[key]) + "\n"
  {
    var longer, shorter := Lines(m, order + [key]), Lines(m, order);
    forall i | 0 <= i < |longer| ensures longer[i] == (shorter + [LineOf(m[key])])[i] {
      assert (order + [key])[i] == if i < |order| then order[i] else key;
    }
    assert longer == shorter + [LineOf(m[key])];
    TerminatedSnoc(Lines(m, order), LineOf(m[key]));
  }

  /**
   * `writeindexFile`'s inner loop: the record's name, version and hashes,
   * each hash followed by a blank, with the surrounding white space trimmed.
   */
  method FormatLine(meta: FileMetaData) returns (line: string)
    ensures line == LineOf(meta)
  {
    line := meta.filename + "," + Itoa(meta.version) + ",";
    var blist := meta.blockHashList;
    for i := 0 to |blist|
      invariant line == meta.filename + "," + Itoa(meta.version) + "," + Spaced(blist[..i])
    {
      assert blist[..i + 1][..i] == blist[..i];
      line := line + blist[i] + " ";
    }
    assert blist[..|blist|] == blist;
    line := TrimSpace(line);
  }

  /**
   * Part way through an enumeration of `keys`: `order` lists the keys taken so
   * far, once each, and `pending` holds the rest.
   */
  ghost predicate Enumerating(order: seq<string>, pending: set<string>, keys: set<string>) {
    pending <= keys &&
    (forall k :: k in keys ==> (k in pending <==> k !in order)) &&
    (forall i, j :: 0 <= i < j < |order| ==> order[i] != order[j]) &&
    (forall i :: 0 <= i < |order| ==> order[i] in keys)
  }

  lemma EnumeratingStep(order: seq<string>, pending: set<string>, keys: set<string>, key: string)
    requires Enumerating(order, pending, keys) && key in pending
    ensures Enumerating(order + [key], pending - {key}, keys)
  {
    var order' := order + [key];
    forall i, j | 0 <= i < j < |order'| ensures order'[i] != order'[j] {
      if j == |order| {
        assert order[i] in order;
      }
    }
  }

  /**
   * `writeindexFile`: one line per record, in the map's iteration order (any
   * order: `order` is the one taken), each followed by a newline.
   */
  method WriteIndexFile(idxMetaMap: map<string, FileMetaData>) returns (text: string, ghost order: seq<string>)
    ensures Enumerates(order, idxMetaMap.Keys)
    ensures text == IndexText(idxMetaMap, order)
  {
    text := "";
    order := [];
    var pending := idxMetaMap.Keys;
    while pending != {}
      invariant Enumerating(order, pending, idxMetaMap.Keys)
      invariant text == IndexText(idxMetaMap, order)
      decreases pending
    {
      var key :| key in pending;
      var line := FormatLine(idxMetaMap[key]);
      IndexTextSnoc(idxMetaMap, order, key);
      EnumeratingStep(order, pending, idxMetaMap.Keys, key);
      text := text + line + "\n";
      order := order + [key];
      pending := pending - {key};
    }
  }

  /** A record the line format carries unchanged. */
  ghost predicate Serializable(meta: FileMetaData) {
    ',' !in meta.filename && '\n' !in meta.filename &&
    (|meta.filename| > 0 ==> !IsSpace(meta.filename[0])) &&
    |meta.blockHashList| > 0 &&
    forall i :: 0 <= i < |meta.blockHashList| ==>
      |meta.blockHashList[i]| > 0 && NoSpace(meta.blockHashList[i]) && ',' !in meta.blockHashList[i]
  }

  lemma {:induction false} SpacedIsJoin(hashes: seq<string>)
    requires |hashes| > 0
    ensures Spaced(hashes) == Join(hashes, ' ') + " "
    decreases |hashes|
  {
    if |hashes| > 1 {
      var init := hashes[..|hashes| - 1];
      var last := hashes[|hashes| - 1];
      SpacedIsJoin(init);
      JoinSnoc(init, last, ' ');
      assert hashes == init + [last];
      assert Spaced(hashes) == Join(init, ' ') + " " + last + " ";
    } else {
      assert Spaced(hashes) == Spaced([]) + hashes[0] + " ";
    }
  }

  lemma {:induction false} JoinSnoc(parts: seq<string>, last: string, sep: char)
    requires |parts| > 0
    ensures Join(parts + [last], sep) == Join(parts, sep) + [sep] + last
    decreases |parts|
  {
    var all := parts + [last];
    if |parts| == 1 {
      assert all[1..] == [last];
    } else {
      assert all[1..] == parts[1..] + [last];
      JoinSnoc(parts[1..], last, sep);
    }
  }

  lemma {:induction false} JoinAvoids(parts: seq<string>, sep: char, c: char)
    requires c != sep
    requires forall i :: 0 <= i < |parts| ==> c !in parts[i]
    ensures c !in Join(parts, sep)
    decreases |parts|
  {
    if |parts| > 1 {
      JoinAvoids(parts[1..], sep, c);
    }
  }

  /** The last character of a join of non-empty pieces is that of the last piece. */
  lemma {:induction false} JoinLast(parts: seq<string>, sep: char)
    requires |parts| > 0 && |parts[|parts| - 1]| > 0
    ensures |Join(parts, sep)| > 0
    ensures Join(parts, sep)[|Join(parts, sep)| - 1] == parts[|parts| - 1][|parts[|parts| - 1]| - 1]
    decreases |parts|
  {
    if |parts| > 1 {
      JoinLast(parts[1..], sep);
    }
  }

  /** The written line of a serializable record, in its untrimmed form. */
  lemma LineOfSerializable(meta: FileMetaData)
    requires Serializable(meta)
    ensures LineOf(meta) == meta.filename + "," + Itoa(meta.version) + "," + Join(meta.blockHashList, ' ')
  {
    var hs := meta.blockHashList;
    var body := meta.filename + "," + Itoa(meta.version) + "," + Join(hs, ' ');
    SpacedIsJoin(hs);
    JoinLast(hs, ' ');
    var last := hs[|hs| - 1];
    assert !IsSpace(last[|last| - 1]);
    assert body[|body| - 1] == last[|last| - 1];
    assert !IsSpace(body[0]) by {
      if |meta.filename| > 0 { assert body[0] == meta.filename[0]; } else { assert body[0] == ','; }
    }
    assert meta.filename + "," + Itoa(meta.version) + "," + Spaced(hs) == body + " ";
    TrimSpaceOfBlankEnded(body);
  }

  /** A written line splits into the name, the printed version and the hashes joined by blanks. */
  lemma LineParts(meta: FileMetaData)
    requires Serializable(meta)
    ensures Split(LineOf(meta), ',') == [meta.filename, Itoa(meta.version), Join(meta.blockHashList, ' ')]
    ensures Split(Join(meta.blockHashList, ' '), ' ') == meta.blockHashList
  {
    LineOfSerializable(meta);
    var hs := meta.blockHashList;
    var v := Itoa(meta.version);
    var hashText := Join(hs, ' ');
    assert ',' !in v;
    forall i | 0 <= i < |hs| ensures ' ' !in hs[i] {
      assert NoSpace(hs[i]);
    }
    JoinAvoids(hs, ' ', ',');
    SplitJoin([meta.filename, v, hashText], ',');
    assert Join([meta.filename, v, hashText], ',') == meta.filename + "," + v + "," + hashText by {
      assert [meta.filename, v, hashText][1..] == [v, hashText];
      assert [v, hashText][1..] == [hashText];
      assert Join([hashText], ',') == hashText;
      assert Join([v, hashText], ',') == v + [','] + hashText;
    }
    SplitJoin(hs, ' ');
  }

  /** Reading a written line gives the record back. */
  lemma ParseLineOf(meta: FileMetaData)
    requires Serializable(meta)
    ensures ParseLine(LineOf(meta)) == Some(meta)
  {
    LineParts(meta);
    AtoiItoa(meta.version);
  }

  /** A written line holds no newline and does not end in a carriage return. */
  lemma LineOfIsOneLine(meta: FileMetaData)
    requires Serializable(meta)
    ensures '\n' !in LineOf(meta)
    ensures |LineOf(meta)| > 0 && LineOf(meta)[|LineOf(meta)| - 1] != '\r'
  {
    LineOfSerializable(meta);
    var hs := meta.blockHashList;
    forall i | 0 <= i < |hs| ensures '\n' !in hs[i] {
      assert NoSpace(hs[i]);
    }
    JoinAvoids(hs, ' ', '\n');
    JoinLast(hs, ' ');
    var last := hs[|hs| - 1];
    assert !IsSpace(last[|last| - 1]);
    assert '\n' !in Itoa(meta.version);
  }

  /**
   * Reading lines that parse to the records named by `order`, each named by
   * its key, gives back those records.
   */
  lemma {:induction false} IndexOfParsedLines(lines: seq<string>, order: seq<string>, m: map<string, FileMetaData>)
    requires |lines| == |order|
    requires forall i :: 0 <= i < |lines| ==>
      order[i] in m && m[order[i]].filename == order[i] && ParseLine(lines[i]) == Some(m[order[i]])
    ensures IndexOfLines(lines).Success?
    ensures forall k :: k in IndexOfLines(lines).value <==> k in order
    ensures forall k :: k in IndexOfLines(lines).value ==> IndexOfLines(lines).value[k] == m[k]
    decreases |lines|
  {
    if lines != [] {
      var n := |lines| - 1;
      var key := order[n];
      IndexOfParsedLines(lines[..n], order[..n], m);
      var prior := IndexOfLines(lines[..n]).value;
      assert ParseLine(lines[n]) == Some(m[key]);
      assert IndexOfLines(lines) == Success(prior[key := m[key]]);
      assert order == order[..n] + [key];
    }
  }

  /**
   * The index format round-trips: reading the text written for a map, in any
   * key order, gives the map back, for records whose names hold no comma or
   * newline and start with no blank, and whose hash lists are non-empty and
   * hold non-empty hashes without commas or white space.
   */
  lemma IndexRoundTrip(m: map<string, FileMetaData>, order: seq<string>)
    requires WellKeyed(m)
    requires forall k :: k in m ==> Serializable(m[k])
    requires Enumerates(order, m.Keys)
    ensures ParseIndex(IndexText(m, order)) == Success(m)
  {
    WrittenLinesScan(m, order);
    WrittenLinesParse(m, order);
    IndexOfAllParsedLines(Lines(m, order), order, m);
  }

  /** Lines that parse to the records of a map, one per key, read back as that map. */
  lemma IndexOfAllParsedLines(lines: seq<string>, order: seq<string>, m: map<string, FileMetaData>)
    requires |lines| == |order|
    requires forall k :: k in m.Keys <==> k in order
    requires forall i :: 0 <= i < |lines| ==>
      order[i] in m && m[order[i]].filename == order[i] && ParseLine(lines[i]) == Some(m[order[i]])
    ensures IndexOfLines(lines) == Success(m)
  {
    IndexOfParsedLines(lines, order, m);
    SameEntries(IndexOfLines(lines).value, m);
  }

  lemma SameEntries(r: map<string, FileMetaData>, m: map<string, FileMetaData>)
    requires forall k :: k in r ==> k in m && r[k] == m[k]
    requires forall k :: k in m ==> k in r
    ensures r == m
  {
  }

  /** The written text scans back into the written lines. */
  lemma WrittenLinesScan(m: map<string, FileMetaData>, order: seq<string>)
    requires forall k :: k in m ==> Serializable(m[k])
    requires forall i :: 0 <= i < |order| ==> order[i] in m
    ensures ScanLines(IndexText(m, order)) == Lines(m, order)
  {
    var lines := Lines(m, order);
    forall i | 0 <= i < |lines|
      ensures '\n' !in lines[i] && |lines[i]| > 0 && lines[i][|lines[i]| - 1] != '\r'
    {
      LineOfIsOneLine(m[order[i]]);
    }
    ScanTerminated(lines);
  }

  /** Each written line reads back as its record. */
  lemma WrittenLinesParse(m: map<string, FileMetaData>, order: seq<string>)
    requires forall k :: k in m ==> Serializable(m[k])
    requires forall i :: 0 <= i < |order| ==> order[i] in m
    ensures forall i :: 0 <= i < |order| ==> ParseLine(Lines(m, order)[i]) == Some(m[order[i]])
  {
    forall i | 0 <= i < |order|
      ensures ParseLine(Lines(m, order)[i]) == Some(m[order[i]])
    {
      ParseLineOf(m[order[i]]);
    }
  }
}
