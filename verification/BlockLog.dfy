/**
 * The segmented log on disk, as a value: two append-only streams of files, one for blocks and one for undo blocks, with
 * sixteen-bit offsets and file numbers.
 */
module BlockLog {
  import opened Types
  import Decimal

  type Disk = map<string, seq<byte>>

  datatype FileInfo = FileInfo(fileName: string, start: uint16, end: uint16)

  datatype Kind = Blocks | Undos

  /** The file a stream writes to, and the offset its next segment gets. */
  datatype Stream = Stream(number: uint16, offset: uint16)

  datatype Log = Log(disk: Disk, blocks: Stream, undos: Stream)
  {
    function StreamOf(kind: Kind): Stream {
      if kind.Blocks? then blocks else undos
    }

    function With(kind: Kind, s: Stream): Log {
      if kind.Blocks? then this.(blocks := s) else this.(undos := s)
    }
  }

  const EMPTY := Log(map[], Stream(0, 0), Stream(0, 0))
  const MAX_FILE_SIZE := 1000

  function Path(kind: Kind, number: nat): string {
    "data/" + (if kind.Blocks? then "blocks" else "undo_blocks") + Decimal.ToString(number) + ".data"
  }

  function Contents(disk: Disk, path: string): seq<byte> {
    if path in disk then disk[path] else []
  }

  // ----- Writing -----

  /** Whether a segment of n bytes opens a new file; the difference is compared as an unsigned number. */
  predicate Rolls(kind: Kind, offset: uint16, n: uint32) {
    var room := Low32(MAX_FILE_SIZE - offset);
    if kind.Blocks? then room <= n else room < n
  }

  function Rolled(kind: Kind, s: Stream, n: uint32): Stream {
    if Rolls(kind, s.offset, n) then Stream(Low16(s.number + 1), 0) else s
  }

  /** A text is written with a terminating zero byte. */
  function SizeOf(text: seq<byte>): uint32 {
    Low32(|text| + 1)
  }

  function Terminated(text: seq<byte>): seq<byte> {
    (text + [0])[..SizeOf(text)]
  }

  function Appended(disk: Disk, path: string, data: seq<byte>): Disk {
    disk[path := Contents(disk, path) + data]
  }

  function Write(log: Log, kind: Kind, text: seq<byte>): (r: (Log, FileInfo)) {
    var s := Rolled(kind, log.StreamOf(kind), SizeOf(text));
    var path := Path(kind, s.number);
    var end := Low16(s.offset + SizeOf(text));
    (log.(disk := Appended(log.disk, path, Terminated(text))).With(kind, Stream(s.number, end)),
     FileInfo(path, s.offset, end))
  }

  // ----- Reading -----

  /** What the program may be asked to read: a missing file, or a range that the file has. */
  predicate Readable(disk: Disk, info: FileInfo) {
    info.fileName in disk ==> info.start < info.end <= |disk[info.fileName]|
  }

  function Read(disk: Disk, info: FileInfo): seq<byte>
    requires Readable(disk, info)
  {
    if info.fileName in disk then disk[info.fileName][info.start..info.end - 1] else []
  }

  predicate ReadsAs(disk: Disk, info: FileInfo, text: seq<byte>) {
    info.fileName in disk && Readable(disk, info) && Read(disk, info) == text
  }

  /** Nothing that is on a disk is ever changed, only added to. */
  predicate Extends(disk: Disk, later: Disk) {
    forall path | path in disk :: path in later && disk[path] <= later[path]
  }

  lemma ReadsLater(disk: Disk, later: Disk, info: FileInfo)
    requires Extends(disk, later) && info.fileName in disk && Readable(disk, info)
    ensures Readable(later, info) && Read(later, info) == Read(disk, info)
  {
  }

  lemma AppendedExtends(disk: Disk, path: string, data: seq<byte>)
    ensures Extends(disk, Appended(disk, path, data))
  {
  }

  // ----- File names -----

  lemma PathInjective(k: Kind, m: nat, l: Kind, n: nat)
    requires Path(k, m) == Path(l, n)
    ensures k == l && m == n
  {
    hide Decimal.ToString;
    var p, q := Path(k, m), Path(l, n);
    assert p[5] == if k.Blocks? then 'b' else 'u';
    assert q[5] == if l.Blocks? then 'b' else 'u';
    var prefix := if k.Blocks? then 11 else 16;
    assert p[prefix..|p| - 5] == Decimal.ToString(m);
    assert q[prefix..|q| - 5] == Decimal.ToString(n);
    Decimal.ToStringInjective(m, n);
  }

  // ----- The invariant -----

  /** The offset is the true length of the current file, and the files after it are yet to come. */
  ghost predicate StreamInv(disk: Disk, kind: Kind, s: Stream) {
    && |Contents(disk, Path(kind, s.number))| == s.offset
    && forall n: uint16 | n > s.number :: Path(kind, n) !in disk
  }

  ghost predicate Inv(log: Log) {
    "" !in log.disk && StreamInv(log.disk, Blocks, log.blocks) && StreamInv(log.disk, Undos, log.undos)
  }

  /** The text fits the integers that describe it: the size, the file number and the end offset do not wrap. */
  predicate Fits(log: Log, kind: Kind, text: seq<byte>) {
    var s := log.StreamOf(kind);
    && |text| + 1 < TWO_TO_THE_32
    && (Rolls(kind, s.offset, SizeOf(text)) ==> s.number < 65535)
    && Rolled(kind, s, SizeOf(text)).offset + SizeOf(text) < TWO_TO_THE_16
  }

  /** The other stream does not notice. */
  lemma OtherStream(disk: Disk, kind: Kind, s: Stream, path: string, data: seq<byte>)
    requires StreamInv(disk, kind, s)
    requires forall n: uint16 :: path != Path(kind, n)
    ensures StreamInv(Appended(disk, path, data), kind, s)
  {
  }

  lemma WriteKeepsInv(log: Log, kind: Kind, text: seq<byte>)
    requires Inv(log) && Fits(log, kind, text)
    ensures Inv(Write(log, kind, text).0)
  {
    hide Path, Rolls;
    var s, n := log.StreamOf(kind), SizeOf(text);
    var t := Rolled(kind, s, n);
    var path := Path(kind, t.number);
    var other := if kind.Blocks? then Undos else Blocks;
    var after := Appended(log.disk, path, Terminated(text));
    forall m: uint16
      ensures path != Path(other, m) && path != "" && (m > t.number ==> path != Path(kind, m))
    {
      PathNonempty(kind, t.number);
      if path == Path(other, m) {
        PathInjective(kind, t.number, other, m);
      }
      if path == Path(kind, m) {
        PathInjective(kind, t.number, kind, m);
      }
    }
    OtherStream(log.disk, other, log.StreamOf(other), path, Terminated(text));
    assert StreamInv(after, kind, Stream(t.number, t.offset + n));
  }

  lemma PathNonempty(kind: Kind, number: nat)
    ensures Path(kind, number) != ""
  {
  }

  /** What is written reads back at once, and everything on the disk stays. */
  lemma WriteReadsBack(log: Log, kind: Kind, text: seq<byte>)
    requires Inv(log) && Fits(log, kind, text)
    ensures var (after, info) := Write(log, kind, text);
            && ReadsAs(after.disk, info, text) && Extends(log.disk, after.disk)
            && info.start == |Contents(log.disk, info.fileName)| && info.end == info.start + |text| + 1
  {
    hide Path, Rolls;
    var (after, info) := Write(log, kind, text);
    var before := Contents(log.disk, info.fileName);
    assert Terminated(text) == text + [0];
    hide Terminated;
    AppendedExtends(log.disk, info.fileName, text + [0]);
    SegmentOf(before, text);
    assert after.disk[info.fileName] == before + (text + [0]);
    assert info.start == |before|;
  }

  lemma SegmentOf(before: seq<byte>, text: seq<byte>)
    ensures (before + (text + [0]))[|before|..|before| + |text|] == text
  {
  }

  /** A write to one stream leaves the other as it was. */
  lemma FitsOther(log: Log, kind: Kind, text: seq<byte>, other: Kind, otherText: seq<byte>)
    requires kind != other
    ensures Fits(Write(log, kind, text).0, other, otherText) == Fits(log, other, otherText)
  {
  }

  // ----- Whole runs -----

  datatype Request = Request(kind: Kind, text: seq<byte>)

  /** The log after a run of write requests, in any interleaving of the two kinds. */
  function Run(requests: seq<Request>): Log {
    var n := |requests|;
    if n == 0 then EMPTY else Write(Run(requests[..n - 1]), requests[n - 1].kind, requests[n - 1].text).0
  }

  /** The location that was returned for a request of the run. */
  function Issued(requests: seq<Request>, i: nat): FileInfo
    requires i < |requests|
  {
    Write(Run(requests[..i]), requests[i].kind, requests[i].text).1
  }

  predicate AllFit(requests: seq<Request>) {
    var n := |requests|;
    n == 0 || (AllFit(requests[..n - 1]) && Fits(Run(requests[..n - 1]), requests[n - 1].kind, requests[n - 1].text))
  }

  lemma {:induction false} RunInv(requests: seq<Request>)
    requires AllFit(requests)
    ensures Inv(Run(requests))
  {
    var n := |requests|;
    if n > 0 {
      RunInv(requests[..n - 1]);
      WriteKeepsInv(Run(requests[..n - 1]), requests[n - 1].kind, requests[n - 1].text);
    }
  }

  /** The disk only grows. */
  lemma {:induction false} RunExtends(requests: seq<Request>, i: nat)
    requires i <= |requests|
    ensures Extends(Run(requests[..i]).disk, Run(requests).disk)
    decreases |requests|
  {
    var n := |requests|;
    if i == n {
      assert requests[..i] == requests;
    } else {
      RunExtends(requests[..n - 1], i);
      assert requests[..n - 1][..i] == requests[..i];
      var (before, last) := (Run(requests[..n - 1]), requests[n - 1]);
      AppendedExtends(before.disk, Issued(requests, n - 1).fileName, Terminated(last.text));
    }
  }

  lemma {:induction false} AllFitAt(requests: seq<Request>, i: nat)
    requires i < |requests| && AllFit(requests)
    ensures AllFit(requests[..i]) && Fits(Run(requests[..i]), requests[i].kind, requests[i].text)
  {
    var n := |requests|;
    if i < n - 1 {
      AllFitAt(requests[..n - 1], i);
      assert requests[..n - 1][..i] == requests[..i];
    }
  }

  /** Every location ever issued still reads back its own text at the end of the run. */
  lemma EveryIssueReadsBack(requests: seq<Request>, i: nat)
    requires i < |requests| && AllFit(requests)
    ensures ReadsAs(Run(requests).disk, Issued(requests, i), requests[i].text)
  {
    hide Fits, Inv, Extends, Run, AllFit, Write;
    AllFitAt(requests, i);
    RunInv(requests[..i]);
    WriteReadsBack(Run(requests[..i]), requests[i].kind, requests[i].text);
    RunStep(requests, i);
    RunExtends(requests, i + 1);
    ReadsLater(Run(requests[..i + 1]).disk, Run(requests).disk, Issued(requests, i));
  }

  lemma RunStep(requests: seq<Request>, i: nat)
    requires i < |requests|
    ensures Run(requests[..i + 1]) == Write(Run(requests[..i]), requests[i].kind, requests[i].text).0
  {
    hide Write;
    assert requests[..i + 1][..i] == requests[..i];
  }

  lemma SameFileSameKind(requests: seq<Request>, i: nat, j: nat)
    requires i < |requests| && j < |requests|
    requires Issued(requests, i).fileName == Issued(requests, j).fileName
    ensures requests[i].kind == requests[j].kind
  {
    hide Path, Rolls, Terminated, Appended;
    var (p, q) := (requests[i], requests[j]);
    PathInjective(p.kind, Rolled(p.kind, Run(requests[..i]).StreamOf(p.kind), SizeOf(p.text)).number,
                  q.kind, Rolled(q.kind, Run(requests[..j]).StreamOf(q.kind), SizeOf(q.text)).number);
  }

  /** Two issued ranges of one file are disjoint, the earlier one below; block and undo files never coincide. */
  lemma IssuedRangesAreDisjoint(requests: seq<Request>, i: nat, j: nat)
    requires i < j < |requests| && AllFit(requests)
    requires Issued(requests, i).fileName == Issued(requests, j).fileName
    ensures requests[i].kind == requests[j].kind
    ensures Issued(requests, i).end <= Issued(requests, j).start
  {
    hide Write, Fits, Inv, Run, AllFit, Read, Extends;
    SameFileSameKind(requests, i, j);
    var r := requests[..j];
    AllFitAt(requests, j);
    assert r[..i] == requests[..i] && Issued(r, i) == Issued(requests, i);
    EveryIssueReadsBack(r, i);
    RunInv(r);
    WriteReadsBack(Run(r), requests[j].kind, requests[j].text);
  }

  // ----- Packing -----

  /** The bytes a run wrote to one kind of file. */
  function BytesOf(requests: seq<Request>, kind: Kind): nat {
    var n := |requests|;
    if n == 0 then 0
    else BytesOf(requests[..n - 1], kind) + if requests[n - 1].kind == kind then |requests[n - 1].text| + 1 else 0
  }

  /** Neighbouring files together hold at least 1000 bytes, so n files need at least 500 n bytes. */
  predicate Packed(s: Stream, bytes: nat) {
    MAX_FILE_SIZE * s.number + s.offset <= 2 * bytes
  }

  lemma WriteKeepsPacked(log: Log, kind: Kind, text: seq<byte>, bytes: nat)
    requires Fits(log, kind, text) && Packed(log.StreamOf(kind), bytes)
    ensures Packed(Write(log, kind, text).0.StreamOf(kind), bytes + |text| + 1)
  {
    hide Path, Terminated, Appended;
  }

  lemma {:induction false} RunPacked(requests: seq<Request>, kind: Kind)
    requires AllFit(requests)
    ensures Packed(Run(requests).StreamOf(kind), BytesOf(requests, kind))
  {
    var n := |requests|;
    if n > 0 {
      RunPacked(requests[..n - 1], kind);
      if requests[n - 1].kind == kind {
        WriteKeepsPacked(Run(requests[..n - 1]), kind, requests[n - 1].text, BytesOf(requests[..n - 1], kind));
      }
    }
  }

  /** The largest text, terminator included, that never overfills a file: the two comparisons differ by one byte. */
  function Limit(kind: Kind): nat {
    if kind.Blocks? then 999 else 1000
  }

  const BUDGET := 500 * 65535

  /** Texts within the limit fit as long as the stream has stayed within its budget. */
  lemma SmallTextFits(log: Log, kind: Kind, text: seq<byte>, bytes: nat)
    requires log.StreamOf(kind).offset <= MAX_FILE_SIZE && Packed(log.StreamOf(kind), bytes)
    requires |text| + 1 <= Limit(kind) && bytes + |text| + 1 <= BUDGET
    ensures Fits(log, kind, text)
    ensures Write(log, kind, text).0.StreamOf(kind).offset <= MAX_FILE_SIZE
  {
  }

  lemma PathIs(kind: Kind, number: nat)
    ensures Path(kind, number) ==
            (if kind.Blocks? then "data/blocks" else "data/undo_blocks") + Decimal.ToString(number) + ".data"
  {
    hide Decimal.ToString;
    assert "data/" + "blocks" == "data/blocks" && "data/" + "undo_blocks" == "data/undo_blocks";
  }

  /** A small text goes to the end of a file, with a zero byte behind it. */
  predicate GoesTo(log: Log, name: string, start: nat, text: seq<byte>, after: Log, info: FileInfo) {
    && info.fileName == name && info.start == start && info.end == start + |text| + 1
    && after.disk == log.disk[name := Contents(log.disk, name) + text + [0]]
  }

  lemma WritesAt(log: Log, kind: Kind, text: seq<byte>)
    requires |text| + 1 <= 1000 && log.StreamOf(kind).offset <= 1000 && log.StreamOf(kind).number < 65535
    ensures var (after, info) := Write(log, kind, text);
            var s := Rolled(kind, log.StreamOf(kind), SizeOf(text));
            && GoesTo(log, Path(kind, s.number), s.offset, text, after, info)
            && after.StreamOf(kind) == Stream(s.number, s.offset + |text| + 1)
            && after.StreamOf(if kind.Blocks? then Undos else Blocks) ==
               log.StreamOf(if kind.Blocks? then Undos else Blocks)
  {
    hide Path, Rolls;
    assert Terminated(text) == text + [0];
    var before := Contents(log.disk, Write(log, kind, text).1.fileName);
    assert before + (text + [0]) == before + text + [0];
  }

  lemma BlockRolls(offset: uint16, n: uint32)
    requires offset <= 1000 && n <= 1000
    ensures Rolls(Blocks, offset, n) <==> offset + n >= 1000
    ensures Rolls(Undos, offset, n) <==> offset + n > 1000
  {
  }

  /**
   * A small block goes into the current file if that stays below 1000 bytes, and otherwise begins the next one.
   */
  predicate BlockPlaced(log: Log, text: seq<byte>, after: Log, info: FileInfo) {
    var (offset, n) := (log.blocks.offset, |text| + 1);
    var (number, start) := if offset + n < 1000 then (log.blocks.number, offset) else (log.blocks.number + 1, 0);
    offset <= 1000 && log.blocks.number < 65535 && n <= 1000 ==>
      && GoesTo(log, "data/blocks" + Decimal.ToString(number) + ".data", start, text, after, info)
      && after.blocks == Stream(number, start + n) && after.undos == log.undos
  }

  lemma BlockGoes(log: Log, text: seq<byte>)
    ensures BlockPlaced(log, text, Write(log, Blocks, text).0, Write(log, Blocks, text).1)
  {
    hide Path, Write, Rolls, GoesTo, Decimal.ToString;
    if log.blocks.offset <= 1000 && log.blocks.number < 65535 && |text| + 1 <= 1000 {
      WritesAt(log, Blocks, text);
      BlockRolls(log.blocks.offset, SizeOf(text));
      PathIs(Blocks, log.blocks.number);
      PathIs(Blocks, log.blocks.number + 1);
    }
  }

  /** A small undo block goes into the current file if that stays within 1000 bytes. */
  predicate UndoPlaced(log: Log, text: seq<byte>, after: Log, info: FileInfo) {
    var (offset, n) := (log.undos.offset, |text| + 1);
    var (number, start) := if offset + n <= 1000 then (log.undos.number, offset) else (log.undos.number + 1, 0);
    offset <= 1000 && log.undos.number < 65535 && n <= 1000 ==>
      && GoesTo(log, "data/undo_blocks" + Decimal.ToString(number) + ".data", start, text, after, info)
      && after.undos == Stream(number, start + n) && after.blocks == log.blocks
  }

  lemma UndoGoes(log: Log, text: seq<byte>)
    ensures UndoPlaced(log, text, Write(log, Undos, text).0, Write(log, Undos, text).1)
  {
    hide Path, Write, Rolls, GoesTo, Decimal.ToString;
    if log.undos.offset <= 1000 && log.undos.number < 65535 && |text| + 1 <= 1000 {
      WritesAt(log, Undos, text);
      BlockRolls(log.undos.offset, SizeOf(text));
      PathIs(Undos, log.undos.number);
      PathIs(Undos, log.undos.number + 1);
    }
  }

  /** A run of small texts within the budget never wraps an integer. */
  lemma {:induction false} SmallRunFits(requests: seq<Request>)
    requires forall i | 0 <= i < |requests| :: |requests[i].text| + 1 <= Limit(requests[i].kind)
    requires BytesOf(requests, Blocks) <= BUDGET && BytesOf(requests, Undos) <= BUDGET
    ensures AllFit(requests)
    ensures Run(requests).blocks.offset <= MAX_FILE_SIZE && Run(requests).undos.offset <= MAX_FILE_SIZE
  {
    var n := |requests|;
    if n > 0 {
      SmallRunFits(requests[..n - 1]);
      var last := requests[n - 1];
      RunPacked(requests[..n - 1], last.kind);
      SmallTextFits(Run(requests[..n - 1]), last.kind, last.text, BytesOf(requests[..n - 1], last.kind));
    }
  }

  // ----- Exactly when a location is right -----

  /** The location is the range that the text occupies in its file. */
  predicate IsTrueRange(log: Log, kind: Kind, text: seq<byte>) {
    var info := Write(log, kind, text).1;
    var length := |Contents(log.disk, info.fileName)|;
    info.start == length && info.end == length + |text| + 1
  }

  /** Wrapping back to a first file that is not empty, or an end offset beyond sixteen bits, makes it wrong. */
  lemma TrueRangeIff(log: Log, kind: Kind, text: seq<byte>)
    requires Inv(log)
    ensures IsTrueRange(log, kind, text) <==>
            var s, n := log.StreamOf(kind), SizeOf(text);
            && (Rolls(kind, s.offset, n) && s.number == 65535 ==> Contents(log.disk, Path(kind, 0)) == [])
            && Rolled(kind, s, n).offset + |text| + 1 < TWO_TO_THE_16
  {
    StartIff(log, kind, text);
    EndIff(Rolled(kind, log.StreamOf(kind), SizeOf(text)).offset, |text| + 1);
    hide Path, Rolls, Inv, Contents, Terminated, Appended;
  }

  /** The range starts where the file ended, unless the file number came back to a file that is not empty. */
  lemma StartIff(log: Log, kind: Kind, text: seq<byte>)
    requires Inv(log)
    ensures var s, n := log.StreamOf(kind), SizeOf(text);
            var t := Rolled(kind, s, n);
            t.offset == |Contents(log.disk, Path(kind, t.number))| <==>
            (Rolls(kind, s.offset, n) && s.number == 65535 ==> Contents(log.disk, Path(kind, 0)) == [])
  {
    hide Path, Rolls, SizeOf;
    assert StreamInv(log.disk, kind, log.StreamOf(kind));
    assert Low16(65536) == 0;
  }

  lemma EndIff(offset: uint16, n: nat)
    ensures Low16(offset + Low32(n)) == offset + n <==> offset + n < TWO_TO_THE_16
  {
  }
}
