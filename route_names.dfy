/**
 * Route and segment names (comma/src/utils.cpp). A route is named
 * "<dongle id>|<route name>"; a segment directory is named
 * "<route name>--<segment index>", where the route name itself contains "--".
 */
module RouteNames {
  import opened Results
  import opened Strings
  import opened Numerals

  /** The tuple (dongle id, route name, ok) parseRouteName returns. */
  datatype RouteName = RouteName(dongleId: string, route: string, ok: bool)

  /** The tuple (route name, segment index, ok) parseSegmentName returns. */
  datatype SegmentName = SegmentName(route: string, index: nat, ok: bool)

  /** parseRouteName: split at the first '|'; without one, the
      value-initialised tuple ("", "", false). */
  function ParseRouteName(input: string): (r: RouteName)
    ensures !r.ok <==> forall j :: !OccursAt(input, "|", j)
    ensures !r.ok ==> r == RouteName("", "", false)
    ensures r.ok ==> input == r.dongleId + "|" + r.route && '|' !in r.dongleId
  {
    match Find(input, "|")
    case None => RouteName("", "", false)
    case Some(i) =>
      CharOccurrences(input, '|');
      assert input == input[..i] + "|" + input[i + 1..];
      RouteName(input[..i], input[i + 1..], true)
  }

  /** Joining a dongle id without '|' to any route name and parsing it back
      gives the two parts. */
  lemma RouteNameRoundTrip(dongleId: string, route: string)
    requires '|' !in dongleId
    ensures ParseRouteName(dongleId + "|" + route) == RouteName(dongleId, route, true)
  {
    var input := dongleId + "|" + route;
    assert OccursAt(input, "|", |dongleId|);
    forall j | 0 <= j < |dongleId|
      ensures !OccursAt(input, "|", j)
    {
      assert input[j] == dongleId[j];
    }
    assert input[..|dongleId|] == dongleId;
    assert input[|dongleId| + 1..] == route;
  }

  /**
   * parseSegmentName: split at the LAST "--" and read the remainder with
   * stoul. Without "--" the value-initialised tuple ("", 0, false) is
   * returned; a remainder stoul rejects makes it throw, modelled as Failure.
   */
  function ParseSegmentName(input: string): (r: Result<SegmentName, StoulError>)
    ensures (forall j :: !OccursAt(input, "--", j)) ==> r == Success(SegmentName("", 0, false))
    ensures (r.Success? && !r.value.ok) <==> forall j :: !OccursAt(input, "--", j)
    ensures r.Success? && r.value.ok ==>
      var k := |r.value.route|;
      && IsLastOccurrence(input, "--", k)
      && input[..k] == r.value.route
      && Stoul(input[k + 2..]) == Success(r.value.index)
    ensures RFind(input, "--").Some? ==>
      var tail := Stoul(input[RFind(input, "--").value + 2..]);
      && (r.Failure? <==> tail.Failure?)
      && (r.Failure? ==> r.error == tail.error)
  {
    match RFind(input, "--")
    case None => Success(SegmentName("", 0, false))
    case Some(k) =>
      match Stoul(input[k + 2..])
      case Failure(e) => Failure(e)
      case Success(index) => Success(SegmentName(input[..k], index, true))
  }

  /** A route name (which may contain "--") followed by "--" and the decimal
      form of an index parses back to the route name and the index. */
  lemma SegmentNameRoundTrip(route: string, index: nat)
    requires index < ULongModulus
    ensures ParseSegmentName(route + "--" + Decimal(index)) == Success(SegmentName(route, index, true))
  {
    var input := route + "--" + Decimal(index);
    assert OccursAt(input, "--", |route|);
    var k := RFind(input, "--").value;
    assert input[..k] == route;
    assert input[k + 2..] == Decimal(index) + [];
    StoulReadsDecimal(index, []);
  }

  /** A route named in the usual "<dongle id>|<date>--<time>" form. */
  lemma RouteNameExample()
    ensures ParseRouteName("d1|07--13") == RouteName("d1", "07--13", true)
  {
    assert "d1|07--13" == "d1" + "|" + "07--13";
    RouteNameRoundTrip("d1", "07--13");
  }

  /** A segment directory: the index follows the last "--", not the one
      inside the route name. */
  lemma SegmentNameExample()
    ensures ParseSegmentName("07-27--13-01--2") == Success(SegmentName("07-27--13-01", 2, true))
  {
    assert Decimal(2) == "2";
    assert "07-27--13-01--2" == "07-27--13-01" + "--" + Decimal(2);
    SegmentNameRoundTrip("07-27--13-01", 2);
  }

  /** A tail that is not a number makes stoul, and so the parse, fail. */
  lemma SegmentNameErrorExample()
    ensures ParseSegmentName("07-27--x") == Failure(InvalidArgument)
  {
    var input := "07-27--x";
    assert OccursAt(input, "--", 5);
    assert input[7..] == "x";
    StoulRejectsNonNumeric("x");
  }
}
