/**
 * One decoded log record (comma/include/comma/comma.hpp: class Event) and
 * the ordering the loader sorts records by (Event::LessThan).
 */
module Events {

  /** The cereal::Event::Which discriminant of a record. */
  type Which = nat

  /** The three encode-index kinds. Their numeric values come from the cereal
      schema, which is not part of this model: any three distinct values
      serve, and nothing below depends on which. */
  const RoadEncodeIdx: Which := 1
  const DriverEncodeIdx: Which := 2
  const WideRoadEncodeIdx: Which := 3

  predicate IsEncodeIdx(which: Which) {
    which == RoadEncodeIdx || which == DriverEncodeIdx || which == WideRoadEncodeIdx
  }

  /** What the message decoder yields for one framed message: its kind, its
      log time, the start-of-frame and end-of-frame stamps of its encode
      index (0 when absent), whether that encode index can be read at all
      (the presentation copy reads it through the first pointer of the
      message's struct, and a malformed pointer there raises), and its
      length in 8-byte words. */
  datatype Frame = Frame(which: Which, logMonoTime: nat, sof: nat, eof: nat, indexReadable: bool, size: nat)

  /** A record: kind, timestamp, whether it is the presentation ("frame")
      copy of an encode-index record, and the word range of its message in
      the loader's buffer (the borrowed reader/words views). */
  datatype Event = Event(which: Which, monoTime: nat, frame: bool, offset: nat, size: nat)

  /** The timestamp of a presentation copy: start of frame if set, else end
      of frame if set, else the log time (comma.cpp:81-91). */
  function PresentationTime(f: Frame): (t: nat)
    ensures f.sof > 0 ==> t == f.sof
    ensures f.sof == 0 && f.eof > 0 ==> t == f.eof
    ensures f.sof == 0 && f.eof == 0 ==> t == f.logMonoTime
  {
    if f.sof > 0 then f.sof else if f.eof > 0 then f.eof else f.logMonoTime
  }

  /** Event::Event(words, frame = false) for the message at word `offset`. */
  function MakeEvent(f: Frame, offset: nat, frame: bool := false): (e: Event)
    ensures e.which == f.which && e.frame == frame && e.offset == offset && e.size == f.size
    ensures !frame ==> e.monoTime == f.logMonoTime
    ensures frame ==> e.monoTime == PresentationTime(f)
  {
    Event(f.which, if frame then PresentationTime(f) else f.logMonoTime, frame, offset, f.size)
  }

  /** The presentation time is one of the three stamps and is zero only
      when all three are; a record made without `frame` is a plain one. */
  lemma PresentationTimeChoice(f: Frame)
    ensures PresentationTime(f) in {f.sof, f.eof, f.logMonoTime}
    ensures PresentationTime(f) == 0 <==> f.sof == 0 && f.eof == 0 && f.logMonoTime == 0
    ensures MakeEvent(f, 0).monoTime == f.logMonoTime
  {
  }

  /** Event::LessThan: lexicographic on (mono_time, which). */
  function LessThan(l: Event, r: Event): (less: bool)
    ensures l.monoTime < r.monoTime ==> less
    ensures l.monoTime > r.monoTime ==> !less
    ensures l.monoTime == r.monoTime ==> (less <==> l.which < r.which)
  {
    l.monoTime < r.monoTime || (l.monoTime == r.monoTime && l.which < r.which)
  }

  /** Two records neither of which is less than the other. */
  predicate Incomparable(l: Event, r: Event) {
    !LessThan(l, r) && !LessThan(r, l)
  }

  /** LessThan is a strict weak order, as std::sort requires of its comparator:
      irreflexive, asymmetric, transitive, and incomparability (which is
      exactly equality of the two keys) is transitive. */
  lemma LessThanIsStrictWeakOrder(a: Event, b: Event, c: Event)
    ensures !LessThan(a, a)
    ensures LessThan(a, b) ==> !LessThan(b, a)
    ensures LessThan(a, b) && LessThan(b, c) ==> LessThan(a, c)
    ensures Incomparable(a, b) <==> a.monoTime == b.monoTime && a.which == b.which
    ensures Incomparable(a, b) && Incomparable(b, c) ==> Incomparable(a, c)
  {
  }
}
