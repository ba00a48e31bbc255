/**
 * The log loader (comma/src/comma.cpp, class LogLoader in
 * comma/include/comma/comma.hpp): read a log file, decompress it when its
 * path names a bzip2 file, walk the buffer one framed message at a time
 * into records, and sort the records by (mono_time, which).
 *
 * Reading the file, bzip2 decompression and Cap'n Proto message decoding
 * are outside the model: the file's bytes, the decompressor and the
 * message decoder are parameters of Load.
 */
module LogLoading {
  import opened Results
  import opened Strings
  import opened Events

  /** sizeof(capnp::word). */
  const WordSize: nat := 8

  /** A capnp::word: WordSize bytes. */
  type Word = seq<bv8>

  /** The buffer as the whole words it holds; trailing bytes that do not
      fill a word are dropped. */
  function Words(contents: seq<bv8>): (words: seq<Word>)
    ensures |words| == |contents| / WordSize
    decreases |contents|
  {
    if |contents| < WordSize then []
    else [contents[..WordSize]] + Words(contents[WordSize..])
  }

  /** The kj::Exception a malformed or truncated message raises. */
  datatype DecodeError = DecodeError

  /** Reads the first message of a range of words
      (FlatArrayMessageReader + getRoot). */
  type Decoder = seq<Word> -> Result<Frame, DecodeError>

  /** Every message the decoder accepts spans at least one word and lies
      within the range it was given, so getEnd() moves forward and stays in
      the buffer. */
  ghost predicate Advances(decode: Decoder) {
    forall words :: decode(words).Success? ==>
      1 <= decode(words).value.size <= |words|
  }

  /** Whether read() decompresses: the path contains ".bz2" anywhere. */
  function IsBz2Path(path: string): (r: bool)
    ensures r <==> exists i :: OccursAt(path, ".bz2", i)
  {
    Find(path, ".bz2").Some?
  }

  lemma Bz2AnywhereInPath(front: string, back: string)
    ensures IsBz2Path(front + ".bz2" + back)
  {
    var path := front + ".bz2" + back;
    assert path[|front|..|front| + 4] == ".bz2";
    assert OccursAt(path, ".bz2", |front|);
  }

  /** A message found by the walk, at its word offset in the buffer. */
  datatype Located = Located(offset: nat, frame: Frame)

  /** The messages decoded front to back from word `pos`, and whether the
      walk stopped at a message the decoder rejected. */
  datatype Walk = Walk(frames: seq<Located>, failed: bool)

  /** A message of an encode-index kind: parse() appends a presentation
      copy after its plain record. */
  predicate HasCopy(f: Frame) {
    IsEncodeIdx(f.which) && f.indexReadable
  }

  /** A message whose plain record is appended but whose presentation copy
      raises while reading the encode index: the walk stops there, failed. */
  predicate Interrupted(f: Frame) {
    IsEncodeIdx(f.which) && !f.indexReadable
  }

  /** The decode loop of parse() as a function: decode the message at the
      cursor, continue at its end, stop when no word remains, at the first
      message the decoder rejects, or after a message whose presentation
      copy raises. */
  function WalkFrom(decode: Decoder, contents: seq<Word>, pos: nat): Walk
    requires Advances(decode) && pos <= |contents|
    decreases |contents| - pos
  {
    if pos == |contents| then Walk([], false)
    else
      match decode(contents[pos..])
      case Failure(_) => Walk([], true)
      case Success(f) =>
        if Interrupted(f) then Walk([Located(pos, f)], true)
        else
          var rest := WalkFrom(decode, contents, pos + f.size);
          Walk([Located(pos, f)] + rest.frames, rest.failed)
  }

  /** Where the walk from `pos` stands after the first k of `frames`: the
      end of message k - 1, or `pos` before the first. */
  function EndAfter(pos: nat, frames: seq<Located>, k: nat): nat
    requires k <= |frames|
  {
    if k == 0 then pos else frames[k - 1].offset + frames[k - 1].frame.size
  }

  /** One step of the walk: a message the decoder accepts at the cursor
      ends the walk when its copy raises, and is otherwise followed by the
      walk from its end. */
  lemma WalkStep(decode: Decoder, contents: seq<Word>, pos: nat)
    requires Advances(decode) && pos < |contents|
    requires decode(contents[pos..]).Success?
    ensures var f := decode(contents[pos..]).value;
      && pos < pos + f.size <= |contents|
      && (Interrupted(f) ==> WalkFrom(decode, contents, pos) == Walk([Located(pos, f)], true))
      && (!Interrupted(f) ==>
            WalkFrom(decode, contents, pos)
            == Walk([Located(pos, f)] + WalkFrom(decode, contents, pos + f.size).frames,
                    WalkFrom(decode, contents, pos + f.size).failed))
  {
  }

  /** The walk from `pos` when the decoder accepts a message there: that
      message first, then, unless its copy raised, the walk from its end. */
  lemma WalkHead(decode: Decoder, contents: seq<Word>, pos: nat)
    requires Advances(decode) && pos <= |contents|
    requires WalkFrom(decode, contents, pos).frames != []
    ensures pos < |contents| && decode(contents[pos..]).Success?
    ensures var f := decode(contents[pos..]).value;
      var fs := WalkFrom(decode, contents, pos).frames;
      && pos + f.size <= |contents|
      && fs[0] == Located(pos, f)
      && (Interrupted(f) ==> |fs| == 1)
      && (!Interrupted(f) ==> fs[1..] == WalkFrom(decode, contents, pos + f.size).frames)
  {
  }

  /** Message k of the walk from `pos` sits where message k - 1 ends (at
      `pos` for the first), is what the decoder reads there, ends within
      the buffer, and is interrupted only if it is the last. */
  lemma {:induction false} WalkFrameAt(decode: Decoder, contents: seq<Word>, pos: nat, k: nat)
    requires Advances(decode) && pos <= |contents|
    requires k < |WalkFrom(decode, contents, pos).frames|
    ensures var fs := WalkFrom(decode, contents, pos).frames;
      && pos <= fs[k].offset == EndAfter(pos, fs, k)
      && fs[k].offset + fs[k].frame.size <= |contents|
      && decode(contents[fs[k].offset..]) == Success(fs[k].frame)
      && (k + 1 < |fs| ==> !Interrupted(fs[k].frame))
    decreases k
  {
    WalkHead(decode, contents, pos);
    if k > 0 {
      var fs := WalkFrom(decode, contents, pos).frames;
      var f := fs[0].frame;
      var rest := fs[1..];
      WalkFrameAt(decode, contents, pos + f.size, k - 1);
      assert fs[k] == rest[k - 1];
      assert EndAfter(pos, fs, k) == EndAfter(pos + f.size, rest, k - 1);
    }
  }

  /** The walk consumes the buffer front to back: the first message sits at
      the cursor, each next one where the previous one ends, each is what
      the decoder reads at its offset, and only the last can be one whose
      copy raised. */
  lemma WalkIsContiguous(decode: Decoder, contents: seq<Word>, pos: nat)
    requires Advances(decode) && pos <= |contents|
    ensures var fs := WalkFrom(decode, contents, pos).frames;
      && (fs != [] ==> fs[0].offset == pos)
      && (forall i :: 0 < i < |fs| ==> fs[i].offset == fs[i - 1].offset + fs[i - 1].frame.size)
      && (forall i :: 0 <= i < |fs| ==>
            && pos <= fs[i].offset < |contents|
            && decode(contents[fs[i].offset..]) == Success(fs[i].frame))
      && (forall i :: 0 <= i < |fs| - 1 ==> !Interrupted(fs[i].frame))
  {
    var fs := WalkFrom(decode, contents, pos).frames;
    forall i | 0 <= i < |fs|
      ensures fs[i].offset == EndAfter(pos, fs, i)
      ensures pos <= fs[i].offset < |contents|
      ensures decode(contents[fs[i].offset..]) == Success(fs[i].frame)
      ensures i < |fs| - 1 ==> !Interrupted(fs[i].frame)
    {
      WalkFrameAt(decode, contents, pos, i);
    }
  }

  /** The walk ends either at the end of the buffer, cleanly, or failed:
      after a message whose copy raises, or exactly at a message the
      decoder rejects. */
  lemma {:induction false} WalkStops(decode: Decoder, contents: seq<Word>, pos: nat)
    requires Advances(decode) && pos <= |contents|
    ensures var w := WalkFrom(decode, contents, pos);
      var end := EndAfter(pos, w.frames, |w.frames|);
      var interrupted := w.frames != [] && Interrupted(w.frames[|w.frames| - 1].frame);
      && end <= |contents|
      && (w.failed <==> end < |contents| || interrupted)
      && (w.failed && !interrupted ==> decode(contents[end..]).Failure?)
    decreases |contents| - pos
  {
    if pos < |contents| && decode(contents[pos..]).Success? {
      var f := decode(contents[pos..]).value;
      WalkStep(decode, contents, pos);
      if !Interrupted(f) {
        WalkStops(decode, contents, pos + f.size);
        var rest := WalkFrom(decode, contents, pos + f.size).frames;
        var fs := WalkFrom(decode, contents, pos).frames;
        assert fs == [Located(pos, f)] + rest;
        assert EndAfter(pos, fs, |fs|) == EndAfter(pos + f.size, rest, |rest|);
        if rest != [] {
          assert fs[|fs| - 1] == rest[|rest| - 1];
        }
      }
    }
  }

  /** The records parse() appends for one message: the record itself and,
      for an encode-index message, its presentation copy (comma.cpp:44-50).
      When reading the copy's encode index raises, only the plain record
      is there. */
  function Records(l: Located): seq<Event> {
    if HasCopy(l.frame) then [MakeEvent(l.frame, l.offset), MakeEvent(l.frame, l.offset, true)]
    else [MakeEvent(l.frame, l.offset)]
  }

  function ExpandAll(frames: seq<Located>): seq<Event> {
    if frames == [] then [] else Records(frames[0]) + ExpandAll(frames[1..])
  }

  /** Where the walk stands after its first k messages: before a message
      the walk reads next (the last one when its copy raises), or, after
      the last one, at the end of the buffer or at the message the decoder
      rejects. */
  lemma WalkAt(decode: Decoder, contents: seq<Word>, k: nat)
    requires Advances(decode) && k <= |WalkFrom(decode, contents, 0).frames|
    ensures var w := WalkFrom(decode, contents, 0);
      var pos := EndAfter(0, w.frames, k);
      && pos <= |contents|
      && (k < |w.frames| ==>
            && decode(contents[pos..]).Success?
            && w.frames[k] == Located(pos, decode(contents[pos..]).value)
            && pos + w.frames[k].frame.size <= |contents|
            && (Interrupted(w.frames[k].frame) ==> k + 1 == |w.frames| && w.failed))
      && (k == |w.frames| ==>
            var interrupted := k > 0 && Interrupted(w.frames[k - 1].frame);
            && (w.failed <==> pos < |contents| || interrupted)
            && (w.failed && !interrupted ==> decode(contents[pos..]).Failure?))
  {
    var w := WalkFrom(decode, contents, 0);
    WalkStops(decode, contents, 0);
    if k == |w.frames| {
      assert w.frames[..k] == w.frames;
    } else {
      WalkFrameAt(decode, contents, 0, k);
      if k + 1 == |w.frames| {
        assert w.frames[..k + 1] == w.frames;
      }
    }
  }

  /** The records of the first k + 1 messages: those of the first k, then
      those of message k. */
  lemma {:induction false} ExpandAllSnoc(frames: seq<Located>, k: nat)
    requires k < |frames|
    ensures ExpandAll(frames[..k + 1]) == ExpandAll(frames[..k]) + Records(frames[k])
  {
    if k > 0 {
      ExpandAllSnoc(frames[1..], k - 1);
      assert frames[1..][..k] == frames[..k + 1][1..];
      assert frames[1..][..k - 1] == frames[..k][1..];
    }
  }

  function CountCopies(frames: seq<Located>): nat {
    if frames == [] then 0
    else (if HasCopy(frames[0].frame) then 1 else 0) + CountCopies(frames[1..])
  }

  /** The count law: one record per message plus one per encode-index
      message whose copy was made. */
  lemma {:induction false} RecordCount(frames: seq<Located>)
    ensures |ExpandAll(frames)| == |frames| + CountCopies(frames)
  {
    if frames != [] {
      RecordCount(frames[1..]);
    }
  }

  /** Every message yields its plain record. */
  lemma {:induction false} PlainRecordPerFrame(frames: seq<Located>, i: nat)
    requires i < |frames|
    ensures MakeEvent(frames[i].frame, frames[i].offset) in ExpandAll(frames)
  {
    if i > 0 {
      PlainRecordPerFrame(frames[1..], i - 1);
    }
  }

  /** A presentation copy exists for a message of an encode-index kind
      whose copy was made, and for no other kind. */
  lemma {:induction false} PresentationCopies(frames: seq<Located>)
    ensures forall l :: l in frames && HasCopy(l.frame) ==> MakeEvent(l.frame, l.offset, true) in ExpandAll(frames)
    ensures forall e :: e in ExpandAll(frames) && e.frame ==> IsEncodeIdx(e.which)
  {
    if frames != [] {
      PresentationCopies(frames[1..]);
      assert forall l :: l in frames && l != frames[0] ==> l in frames[1..];
    }
  }

  /** Non-decreasing under LessThan: no record is less than one before it. */
  predicate SortedByKey(s: seq<Event>) {
    forall i, j :: 0 <= i < j < |s| ==> !LessThan(s[j], s[i])
  }

  /** The first position whose record `e` is less than. */
  function InsertionPoint(s: seq<Event>, e: Event): (k: nat)
    ensures k <= |s|
    ensures forall i :: 0 <= i < k ==> !LessThan(e, s[i])
    ensures k < |s| ==> LessThan(e, s[k])
  {
    if s == [] || LessThan(e, s[0]) then 0 else 1 + InsertionPoint(s[1..], e)
  }

  lemma InsertKeepsOrder(s: seq<Event>, e: Event, k: nat)
    requires SortedByKey(s) && k == InsertionPoint(s, e)
    ensures SortedByKey(s[..k] + [e] + s[k..])
  {
    var r := s[..k] + [e] + s[k..];
    assert forall i :: 0 <= i < k ==> r[i] == s[i];
    assert forall i :: k < i < |r| ==> r[i] == s[i - 1];
    forall i, j | 0 <= i < j < |r|
      ensures !LessThan(r[j], r[i])
    {
      if i == k && j > k + 1 {
        assert !LessThan(s[j - 1], s[k]);
      }
    }
  }

  function Insert(s: seq<Event>, e: Event): (r: seq<Event>)
    requires SortedByKey(s)
    ensures SortedByKey(r)
    ensures multiset(r) == multiset(s) + multiset{e}
  {
    var k := InsertionPoint(s, e);
    InsertKeepsOrder(s, e, k);
    assert s == s[..k] + s[k..];
    s[..k] + [e] + s[k..]
  }

  /** std::sort(events_.begin(), events_.end(), Event::LessThan()): the
      result is ordered and a permutation of the input. std::sort is not
      stable, so nothing more is promised about records with equal keys. */
  method SortByKey(s: seq<Event>) returns (r: seq<Event>)
    ensures SortedByKey(r)
    ensures multiset(r) == multiset(s)
  {
    r := [];
    for i := 0 to |s|
      invariant SortedByKey(r)
      invariant multiset(r) == multiset(s[..i])
    {
      assert s[..i + 1] == s[..i] + [s[i]];
      r := Insert(r, s[i]);
    }
    assert s[..|s|] == s;
  }

  /** The records parse() leaves behind, given those already present: after
      a clean walk, an ordered permutation of them plus the decoded records;
      after a decode error, the same in decode order, unsorted. */
  ghost predicate ParsedFrom(events: seq<Event>, before: seq<Event>, decode: Decoder, contents: seq<bv8>)
    requires Advances(decode)
  {
    var w := WalkFrom(decode, Words(contents), 0);
    var records := before + ExpandAll(w.frames);
    if w.failed then events == records
    else SortedByKey(events) && multiset(events) == multiset(records)
  }

  /** The bytes read() leaves in contents_. */
  function ReadBytes(path: string, file: seq<bv8>, decompress: seq<bv8> -> seq<bv8>): seq<bv8> {
    if IsBz2Path(path) then decompress(file) else file
  }

  class LogLoader {
    const path: string
    var loaded: bool
    var contents: seq<bv8>
    var events: seq<Event>

    /** loaded_ is exactly "a non-empty buffer produced records", and an
        unloaded loader holds no records, so a retry starts from none. */
    ghost predicate Valid()
      reads this
    {
      && (loaded <==> contents != [] && events != [])
      && (!loaded ==> events == [])
    }

    constructor (path: string)
      ensures this.path == path
      ensures !loaded && contents == [] && events == []
      ensures Valid()
    {
      this.path := path;
      loaded := false;
      contents := [];
      events := [];
    }

    /** isLoaded(): the last load read a non-empty buffer that produced
        records. */
    function IsLoaded(): (r: bool)
      requires Valid()
      reads this
      ensures r <==> contents != [] && events != []
    {
      loaded
    }

    /** size(): the number of records held, none before a successful load. */
    function Size(): (n: nat)
      requires Valid()
      reads this
      ensures n == |events|
      ensures !IsLoaded() ==> n == 0
    {
      |events|
    }

    /** load(): nothing once loaded; otherwise read, parse, and record
        whether a non-empty buffer produced records. A failed load is
        retried in full by the next call. */
    method Load(file: seq<bv8>, decompress: seq<bv8> -> seq<bv8>, decode: Decoder)
      requires Valid() && Advances(decode)
      modifies this
      ensures Valid()
      ensures old(loaded) ==> loaded && contents == old(contents) && events == old(events)
      ensures !old(loaded) ==> contents == ReadBytes(path, file, decompress)
      ensures !old(loaded) ==> ParsedFrom(events, [], decode, contents)
    {
      if IsLoaded() {
        return;
      }
      Read(file, decompress);
      Parse(decode);
      if contents == [] {
        assert WalkFrom(decode, Words(contents), 0) == Walk([], false);
        assert |events| == |multiset(events)| == 0;
      }
      loaded := contents != [] && events != [];
    }

    /** read(): the file's bytes, decompressed when the path names a bzip2 file. */
    method Read(file: seq<bv8>, decompress: seq<bv8> -> seq<bv8>)
      modifies this`contents
      ensures contents == ReadBytes(path, file, decompress)
    {
      contents := file;
      if Find(path, ".bz2").Some? {
        contents := decompress(contents);
      }
    }

    /** parse(): walk the whole words of the buffer, appending each
        message's records; on a decode error return at once, keeping what
        was appended and skipping the sort. */
    method Parse(decode: Decoder)
      requires Advances(decode)
      modifies this`events
      ensures ParsedFrom(events, old(events), decode, contents)
    {
      var failed;
      events, failed := AppendRecords(decode, Words(contents), events);
      if failed {
        return;
      }
      if events != [] {
        events := SortByKey(events);
      }
    }
  }

  /** A turn of the decode loop after k messages that meets a message the
      decoder rejects: the walk ends there, failed, with every record
      appended. */
  lemma StepRejected(decode: Decoder, bytes: seq<Word>, before: seq<Event>, records: seq<Event>, k: nat)
    requires Advances(decode)
    requires k <= |WalkFrom(decode, bytes, 0).frames|
    requires EndAfter(0, WalkFrom(decode, bytes, 0).frames, k) < |bytes|
    requires decode(bytes[EndAfter(0, WalkFrom(decode, bytes, 0).frames, k)..]).Failure?
    requires records == before + ExpandAll(WalkFrom(decode, bytes, 0).frames[..k])
    requires k > 0 ==> !Interrupted(WalkFrom(decode, bytes, 0).frames[k - 1].frame)
    ensures WalkFrom(decode, bytes, 0).failed
    ensures records == before + ExpandAll(WalkFrom(decode, bytes, 0).frames)
  {
    var w := WalkFrom(decode, bytes, 0);
    WalkAt(decode, bytes, k);
    assert w.frames[..k] == w.frames;
  }

  /** A turn of the decode loop after k messages that meets a message `f`
      the decoder accepts at `pos`: it is the walk's next message, and its
      last, failed, if its copy raises. */
  lemma StepAccepted(decode: Decoder, bytes: seq<Word>, k: nat, pos: nat, f: Frame)
    requires Advances(decode)
    requires k <= |WalkFrom(decode, bytes, 0).frames|
    requires pos == EndAfter(0, WalkFrom(decode, bytes, 0).frames, k) < |bytes|
    requires decode(bytes[pos..]) == Success(f)
    requires k > 0 ==> !Interrupted(WalkFrom(decode, bytes, 0).frames[k - 1].frame)
    ensures var frames := WalkFrom(decode, bytes, 0).frames;
      && k < |frames| && frames[k] == Located(pos, f)
      && EndAfter(0, frames, k + 1) == pos + f.size <= |bytes|
      && (Interrupted(f) ==> WalkFrom(decode, bytes, 0).failed && k + 1 == |frames|)
  {
    WalkAt(decode, bytes, k);
  }

  /** The records of message k follow those of the messages before it. */
  lemma AppendNext(frames: seq<Located>, k: nat, before: seq<Event>, records: seq<Event>)
    requires k < |frames|
    requires records == before + ExpandAll(frames[..k])
    ensures records + Records(frames[k]) == before + ExpandAll(frames[..k + 1])
  {
    ExpandAllSnoc(frames, k);
    assert records + Records(frames[k]) == before + (ExpandAll(frames[..k]) + Records(frames[k]));
  }

  /** The decode loop after k messages with no word left: the walk is
      over, cleanly, and every record is appended. */
  lemma WalkEnded(decode: Decoder, bytes: seq<Word>, before: seq<Event>, records: seq<Event>, k: nat)
    requires Advances(decode)
    requires k <= |WalkFrom(decode, bytes, 0).frames|
    requires EndAfter(0, WalkFrom(decode, bytes, 0).frames, k) == |bytes|
    requires records == before + ExpandAll(WalkFrom(decode, bytes, 0).frames[..k])
    requires k > 0 ==> !Interrupted(WalkFrom(decode, bytes, 0).frames[k - 1].frame)
    ensures !WalkFrom(decode, bytes, 0).failed
    ensures records == before + ExpandAll(WalkFrom(decode, bytes, 0).frames)
  {
    var w := WalkFrom(decode, bytes, 0);
    WalkAt(decode, bytes, k);
    assert w.frames[..k] == w.frames;
  }

  /** The two emplace_backs for the message `f` at word `pos`
      (comma.cpp:44-50): its plain record, then, for an encode-index kind,
      its presentation copy, which raises instead when the encode index
      cannot be read. */
  method AppendMessage(records: seq<Event>, pos: nat, f: Frame) returns (appended: seq<Event>, raised: bool)
    ensures raised <==> Interrupted(f)
    ensures raised ==> appended == records + [MakeEvent(f, pos)]
    ensures !raised ==> appended == records + Records(Located(pos, f))
  {
    appended := records + [MakeEvent(f, pos)];
    raised := false;
    if IsEncodeIdx(f.which) {
      if !f.indexReadable {
        return appended, true;
      }
      appended := appended + [MakeEvent(f, pos, true)];
    }
  }

  /** The decode loop of parse(): from the first word, decode a message,
      append its record and, for an encode-index kind, its presentation
      copy, continue at its end; stop when no whole word is left, or report
      failure at the first message the decoder rejects or whose copy
      raises, keeping the records appended before that point. */
  method AppendRecords(decode: Decoder, bytes: seq<Word>, before: seq<Event>) returns (records: seq<Event>, failed: bool)
    requires Advances(decode)
    ensures failed == WalkFrom(decode, bytes, 0).failed
    ensures records == before + ExpandAll(WalkFrom(decode, bytes, 0).frames)
  {
    ghost var frames := WalkFrom(decode, bytes, 0).frames;
    ghost var k := 0;
    var pos := 0;
    records := before;
    while pos < |bytes|
      invariant k <= |frames| && pos == EndAfter(0, frames, k) && pos <= |bytes|
      invariant records == before + ExpandAll(frames[..k])
      invariant k > 0 ==> !Interrupted(frames[k - 1].frame)
      decreases |bytes| - pos
    {
      var decoded := decode(bytes[pos..]);
      if decoded.Failure? {
        StepRejected(decode, bytes, before, records, k);
        return records, true;
      }
      var f := decoded.value;
      StepAccepted(decode, bytes, k, pos, f);
      AppendNext(frames, k, before, records);
      var raised;
      records, raised := AppendMessage(records, pos, f);
      if raised {
        assert frames[..k + 1] == frames;
        return records, true;
      }
      pos := pos + f.size;
      k := k + 1;
    }
    WalkEnded(decode, bytes, before, records, k);
    failed := false;
  }

  /** The loader's life cycle as the fixture test drives it: a new loader
      is not loaded; one load reads the file and holds every record the
      walk produced, and is loaded exactly when it holds some; a second
      load of a loaded loader changes nothing. */
  method LoadTwice(path: string, file: seq<bv8>, decompress: seq<bv8> -> seq<bv8>, decode: Decoder)
    returns (before: bool, after: bool, count: nat, again: bool, recount: nat)
    requires Advances(decode)
    ensures !before
    ensures var w := WalkFrom(decode, Words(ReadBytes(path, file, decompress)), 0);
      count == |ExpandAll(w.frames)|
    ensures after <==> ReadBytes(path, file, decompress) != [] && count > 0
    ensures after ==> again && recount == count
  {
    var loader := new LogLoader(path);
    before := loader.IsLoaded();
    loader.Load(file, decompress, decode);
    ghost var records := ExpandAll(WalkFrom(decode, Words(loader.contents), 0).frames);
    assert |multiset(loader.events)| == |multiset(records)|;
    after := loader.IsLoaded();
    count := loader.Size();
    again, recount := after, count;
    if after {
      loader.Load(file, decompress, decode);
      again := loader.IsLoaded();
      recount := loader.Size();
    }
  }

  /** The length and capacity of the events_ vector. */
  datatype Storage = Storage(size: nat, capacity: nat)

  /** std::vector::emplace_back: one more element; a vector that was full
      moves its elements to new storage of capacity `grown` (the library's
      growth policy), which invalidates every reference into it. */
  function EmplaceBack(v: Storage, grown: nat): (r: Storage)
    requires v.size <= v.capacity && v.size < grown
    ensures r.size == v.size + 1 && r.size <= r.capacity
    ensures r.capacity != v.capacity <==> v.size == v.capacity
  {
    if v.size < v.capacity then Storage(v.size + 1, v.capacity) else Storage(v.size + 1, grown)
  }

  /** The cursor advance of parse() as written (comma.cpp:44-53): the
      reference to the plain record taken at line 44 is read at line 53,
      after the second emplace_back of line 49 for an encode-index kind.
      It is still valid exactly when that second emplace_back did not
      reallocate, which it does when the first left the vector full. */
  function CursorReferenceValid(v: Storage, which: Which, grown: nat, grownAgain: nat): (valid: bool)
    requires v.size <= v.capacity && v.size < grown && v.size + 1 < grownAgain
    ensures var afterPlain := EmplaceBack(v, grown);
      valid <==> !IsEncodeIdx(which) || EmplaceBack(afterPlain, grownAgain).capacity == afterPlain.capacity
  {
    var afterPlain := EmplaceBack(v, grown);
    !IsEncodeIdx(which) || afterPlain.size < afterPlain.capacity
  }

  /** An encode-index message whose plain record fills the vector leaves
      line 53 reading through a dangling reference. */
  lemma CursorDanglesWhenFull(v: Storage, which: Which, grown: nat, grownAgain: nat)
    requires v.size <= v.capacity && v.size < grown && v.size + 1 < grownAgain
    requires IsEncodeIdx(which)
    ensures !CursorReferenceValid(v, which, grown, grownAgain) <==> EmplaceBack(v, grown).size == EmplaceBack(v, grown).capacity
  {
  }

  /** An encode-index message read first into an empty vector: the first
      emplace_back allocates room for exactly one record (as libstdc++,
      libc++ and the Microsoft library all do), so the second reallocates
      and the reference is left dangling. */
  lemma FirstEncodeIndexDangles()
    ensures !CursorReferenceValid(Storage(0, 0), RoadEncodeIdx, 1, 2)
  {
  }
}
