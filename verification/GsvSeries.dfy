/**
 * Merging a series of GSV sentences in `_rover_read_loop` of src/caster.py (lines 1923-1939), and what a whole
 * printed series reports. The mean is an exact real.
 */
module GsvSeries {
  import opened ByteStrings
  import opened Gsv

  // ----- the mean -----

  function Positive(rows: seq<Row>): seq<int>
  {
    if rows == [] then [] else (if rows[0].snr > 0 then [rows[0].snr] else []) + Positive(rows[1..])
  }

  function Total(snrs: seq<int>): int
  {
    if snrs == [] then 0 else snrs[0] + Total(snrs[1..])
  }

  function Mean(snrs: seq<int>): real
  {
    if snrs == [] then 0.0 else Total(snrs) as real / |snrs| as real
  }

  /** Mean of the positive signal-to-noise ratios, zero when there are none. */
  function MeanSnr(rows: seq<Row>): real
  {
    Mean(Positive(rows))
  }

  // ----- the session -----

  /** The GSV fields of a rover session; `sats` is None until the first series starts. */
  datatype State = State(total: int, lastNum: int, sats: Option<seq<Row>>, mean: Option<real>, inView: Option<int>)

  const START := State(0, 0, None, None, None)

  /** One parsed sentence; None when the missing list is extended, which raises. */
  function Merge(s: State, g: Sentence): Option<State>
  {
    var sats := if g.num == 1 || s.total != g.total then Some([]) else s.sats;
    if sats == None then None
    else
      var all := sats.value + g.rows;
      Some(if g.num == g.total then State(g.total, g.num, Some(all), Some(MeanSnr(all)), Some(g.inView))
           else State(g.total, g.num, Some(all), s.mean, s.inView))
  }

  class RoverNmea {
    var pendingTotal: int
    var pendingLastNum: int
    var pendingSats: Option<seq<Row>>
    var snrMean: Option<real>
    var totalSv: Option<int>

    constructor ()
      ensures Value() == START
    {
      pendingTotal, pendingLastNum, pendingSats, snrMean, totalSv := 0, 0, None, None, None;
    }

    function Value(): State
      reads this
    {
      State(pendingTotal, pendingLastNum, pendingSats, snrMean, totalSv)
    }

    method MergeSentence(g: Sentence) returns (ok: bool)
      modifies this
      ensures ok == Merge(old(Value()), g).Some?
      ensures ok ==> Value() == Merge(old(Value()), g).value
    {
      if g.num == 1 || pendingTotal != g.total {
        pendingTotal := g.total;
        pendingLastNum := 1;
        pendingSats := Some([]);
      }
      pendingLastNum := g.num;
      if pendingSats == None {
        return false;
      }
      pendingSats := Some(pendingSats.value + g.rows);
      if g.num == g.total {
        snrMean := Some(MeanSnr(pendingSats.value));
        totalSv := Some(g.inView);
      }
      return true;
    }

    /** The GSV branch of the loop for one line; `ok` is false when it raises. */
    method OnGsv(line: string) returns (ok: bool)
      modifies this
      ensures ok == Take(old(Value()), ParseGsv(line)).Some?
      ensures ok ==> Value() == Take(old(Value()), ParseGsv(line)).value
    {
      var gsv := ParseGsvLine(line);
      ok := true;
      if gsv.Some? {
        ok := MergeSentence(gsv.value);
      }
    }
  }

  /** The result of parsing one line: a line that does not parse changes nothing. */
  function Take(s: State, g: Option<Sentence>): Option<State>
  {
    if g == None then Some(s) else Merge(s, g.value)
  }

  function TakeAll(s: State, gs: seq<Option<Sentence>>): Option<State>
    decreases |gs|
  {
    if gs == [] then Some(s)
    else
      var next := Take(s, gs[0]);
      if next == None then None else TakeAll(next.value, gs[1..])
  }

  function ParseAll(lines: seq<string>): seq<Option<Sentence>>
  {
    if lines == [] then [] else [ParseGsv(lines[0])] + ParseAll(lines[1..])
  }

  /** Lines fed one after the other. */
  function FeedAll(s: State, lines: seq<string>): Option<State>
  {
    TakeAll(s, ParseAll(lines))
  }

  /** Some lines bring a new session into this state. */
  ghost predicate Reachable(s: State)
  {
    exists lines :: FeedAll(START, lines) == Some(s)
  }

  // ----- a printed series -----

  /** Sentences `num` up to `total`, one for each group of satellites. */
  function Series(header: string, total: int, num: int, inView: int, groups: seq<seq<Satellite>>): seq<string>
    requires Header(header)
    decreases |groups|
  {
    if groups == [] then []
    else [Print(header, total, num, inView, groups[0])] + Series(header, total, num + 1, inView, groups[1..])
  }

  /** The sentences of a series as they are parsed. */
  function Parsed(total: int, num: int, inView: int, groups: seq<seq<Satellite>>): seq<Option<Sentence>>
    decreases |groups|
  {
    if groups == [] then []
    else [if groups[0] == [] then None else Some(Sentence(total, num, inView, RowsOf(groups[0])))] +
         Parsed(total, num + 1, inView, groups[1..])
  }

  lemma {:induction false} ParseSeries(header: string, total: int, num: int, inView: int, groups: seq<seq<Satellite>>)
    requires Header(header)
    ensures ParseAll(Series(header, total, num, inView, groups)) == Parsed(total, num, inView, groups)
    decreases |groups|
  {
    if groups != [] {
      var rest := Series(header, total, num + 1, inView, groups[1..]);
      assert Series(header, total, num, inView, groups) == [Print(header, total, num, inView, groups[0])] + rest;
      ParseCons(Print(header, total, num, inView, groups[0]), rest);
      ParsePrinted(header, total, num, inView, groups[0]);
      ParseSeries(header, total, num + 1, inView, groups[1..]);
    }
  }

  lemma ParseCons(line: string, rest: seq<string>)
    ensures ParseAll([line] + rest) == [ParseGsv(line)] + ParseAll(rest)
  {
    assert ([line] + rest)[1..] == rest;
  }

  lemma TakeParsed(s: State, total: int, num: int, inView: int, groups: seq<seq<Satellite>>)
    requires groups != []
    ensures var next := Take(s, Parsed(total, num, inView, groups)[0]);
      TakeAll(s, Parsed(total, num, inView, groups)) ==
      if next == None then None else TakeAll(next.value, Parsed(total, num + 1, inView, groups[1..]))
  {
    assert Parsed(total, num, inView, groups)[1..] == Parsed(total, num + 1, inView, groups[1..]);
  }

  /** The rows of all groups in order. */
  function AllRows(groups: seq<seq<Satellite>>): seq<Row>
  {
    if groups == [] then [] else RowsOf(groups[0]) + AllRows(groups[1..])
  }

  function Last(groups: seq<seq<Satellite>>): seq<Satellite>
    requires groups != []
  {
    groups[|groups| - 1]
  }

  /** What is reported once sentence `total` has been merged: exactly these rows. */
  predicate ReportsRows(r: Option<State>, rows: seq<Row>, inView: int)
  {
    r.Some? && r.value.mean == Some(MeanSnr(rows)) && r.value.inView == Some(inView)
  }

  /** The last sentence of a series under way. */
  lemma LastOfSeries(s: State, total: int, inView: int, sats: seq<Satellite>, pending: seq<Row>)
    requires sats != [] && total > 1 && s.total == total && s.sats == Some(pending)
    ensures ReportsRows(TakeAll(s, Parsed(total, total, inView, [sats])), pending + AllRows([sats]), inView)
  {
    TakeParsed(s, total, total, inView, [sats]);
    assert AllRows([sats][1..]) == [] && RowsOf(sats) + [] == RowsOf(sats);
    assert Parsed(total, total + 1, inView, [sats][1..]) == [];
  }

  /** A sentence in the middle of a series adds its satellites, if it has any. */
  lemma MiddleOfSeries(s: State, total: int, num: int, inView: int, groups: seq<seq<Satellite>>, pending: seq<Row>)
    requires groups != [] && 1 < num < total && s.total == total && s.sats == Some(pending)
    ensures var next := if groups[0] == [] then s
                        else State(total, num, Some(pending + RowsOf(groups[0])), s.mean, s.inView);
      TakeAll(s, Parsed(total, num, inView, groups)) == TakeAll(next, Parsed(total, num + 1, inView, groups[1..]))
  {
    TakeParsed(s, total, num, inView, groups);
  }

  lemma AllRowsStep(groups: seq<seq<Satellite>>, pending: seq<Row>)
    requires groups != []
    ensures pending + AllRows(groups) == (pending + RowsOf(groups[0])) + AllRows(groups[1..])
  {
  }

  /** Feeding the rest of a series that is under way reports what was pending and the rest. */
  lemma {:induction false} RestOfSeries(s: State, total: int, num: int, inView: int, groups: seq<seq<Satellite>>,
                                        pending: seq<Row>)
    requires groups != [] && Last(groups) != []
    requires num > 1 && num + |groups| == total + 1 && s.total == total && s.sats == Some(pending)
    ensures ReportsRows(TakeAll(s, Parsed(total, num, inView, groups)), pending + AllRows(groups), inView)
    decreases |groups|
  {
    if |groups| == 1 {
      assert groups == [groups[0]];
      LastOfSeries(s, total, inView, groups[0], pending);
    } else {
      MiddleOfSeries(s, total, num, inView, groups, pending);
      AllRowsStep(groups, pending);
      var more := pending + RowsOf(groups[0]);
      if groups[0] == [] {
        assert more == pending;
        RestOfSeries(s, total, num + 1, inView, groups[1..], pending);
      } else {
        RestOfSeries(State(total, num, Some(more), s.mean, s.inView), total, num + 1, inView, groups[1..], more);
      }
    }
  }

  lemma ParsedReported(s: State, inView: int, groups: seq<seq<Satellite>>)
    requires groups != [] && groups[0] != [] && Last(groups) != []
    ensures ReportsRows(TakeAll(s, Parsed(|groups|, 1, inView, groups)), AllRows(groups), inView)
  {
    var total, rest, rows := |groups|, groups[1..], RowsOf(groups[0]);
    TakeParsed(s, total, 1, inView, groups);
    assert [] + rows == rows;
    if total == 1 {
      assert AllRows(rest) == [] && AllRows(groups) == rows;
    } else {
      RestOfSeries(State(total, 1, Some(rows), s.mean, s.inView), total, 2, inView, rest, rows);
    }
  }

  /**
   * The satellites printed into checksummed sentences 1..N, with satellites in the first and in the last, are
   * reported exactly, whatever series was pending before.
   */
  lemma SeriesReported(s: State, header: string, inView: int, groups: seq<seq<Satellite>>)
    requires Header(header) && groups != [] && groups[0] != [] && Last(groups) != []
    ensures ReportsRows(FeedAll(s, Series(header, |groups|, 1, inView, groups)), AllRows(groups), inView)
  {
    ParseSeries(header, |groups|, 1, inView, groups);
    ParsedReported(s, inView, groups);
  }

  lemma {:induction false} NothingReported(s: State, total: int, num: int, inView: int, groups: seq<seq<Satellite>>)
    requires groups != [] && Last(groups) == [] && num + |groups| == total + 1
    ensures var r := TakeAll(s, Parsed(total, num, inView, groups));
      r.Some? ==> r.value.mean == s.mean && r.value.inView == s.inView
    decreases |groups|
  {
    TakeParsed(s, total, num, inView, groups);
    var rest := groups[1..];
    if rest != [] {
      var next := Take(s, Parsed(total, num, inView, groups)[0]);
      if next.Some? {
        NothingReported(next.value, total, num + 1, inView, rest);
      }
    }
  }

  /** Without satellites in the last sentence nothing is reported. */
  lemma NoReportWithoutLast(s: State, header: string, inView: int, groups: seq<seq<Satellite>>)
    requires Header(header) && groups != [] && Last(groups) == []
    ensures var r := FeedAll(s, Series(header, |groups|, 1, inView, groups));
      r.Some? ==> r.value.mean == s.mean && r.value.inView == s.inView
  {
    ParseSeries(header, |groups|, 1, inView, groups);
    NothingReported(s, |groups|, 1, inView, groups);
  }

  /** Without satellites in the first sentence, the satellites of an unfinished series of the same length count. */
  lemma StaleSatellitesCount(s: State, header: string, inView: int, groups: seq<seq<Satellite>>, stale: seq<Row>)
    requires Header(header) && |groups| > 1 && groups[0] == [] && Last(groups) != []
    requires s.total == |groups| && s.sats == Some(stale)
    ensures ReportsRows(FeedAll(s, Series(header, |groups|, 1, inView, groups)), stale + AllRows(groups), inView)
  {
    var total, rest := |groups|, groups[1..];
    ParseSeries(header, total, 1, inView, groups);
    TakeParsed(s, total, 1, inView, groups);
    assert AllRows(groups) == AllRows(rest);
    RestOfSeries(s, total, 2, inView, rest, stale);
  }

  // ----- what the satellites themselves say -----

  function AllSatellites(groups: seq<seq<Satellite>>): seq<Satellite>
  {
    if groups == [] then [] else groups[0] + AllSatellites(groups[1..])
  }

  /** The positive ratios of the satellites whose number is zero, or of those whose number is not. */
  function Ratios(sats: seq<Satellite>, zero: bool): seq<int>
  {
    if sats == [] then []
    else
      var s := sats[0];
      (if (s.prn == 0) == zero && OrZero(s.snr) > 0 then [OrZero(s.snr)] else []) + Ratios(sats[1..], zero)
  }

  /** The positive ratios of all satellites. */
  function AllRatios(sats: seq<Satellite>): seq<int>
  {
    if sats == [] then []
    else (if OrZero(sats[0].snr) > 0 then [OrZero(sats[0].snr)] else []) + AllRatios(sats[1..])
  }

  /** The report: the mean of the positive ratios of exactly these satellites, and how many are in view. */
  predicate Reports(r: Option<State>, sats: seq<Satellite>, inView: int)
  {
    r.Some? && r.value.mean == Some(Mean(AllRatios(sats))) && r.value.inView == Some(inView)
  }

  /** Satellites with number zero have no positive ratio, or the same mean ratio as the others. */
  predicate ZerosHarmless(sats: seq<Satellite>)
  {
    var zeros, others := Ratios(sats, true), Ratios(sats, false);
    zeros == [] || (others != [] && Total(zeros) * |others| == Total(others) * |zeros|)
  }

  lemma {:induction false} PositiveAppend(a: seq<Row>, b: seq<Row>)
    ensures Positive(a + b) == Positive(a) + Positive(b)
  {
    if a == [] {
      assert a + b == b;
    } else {
      assert (a + b)[1..] == a[1..] + b;
      PositiveAppend(a[1..], b);
    }
  }

  lemma RatiosCons(sat: Satellite, rest: seq<Satellite>, zero: bool)
    ensures Ratios([sat] + rest, zero) == Ratios([sat], zero) + Ratios(rest, zero)
  {
    assert ([sat] + rest)[1..] == rest && [sat][1..] == [];
  }

  lemma {:induction false} RatiosAppend(a: seq<Satellite>, b: seq<Satellite>, zero: bool)
    ensures Ratios(a + b, zero) == Ratios(a, zero) + Ratios(b, zero)
  {
    if a == [] {
      assert a + b == b;
    } else {
      assert (a + b)[0] == a[0] && (a + b)[1..] == a[1..] + b;
      RatiosAppend(a[1..], b, zero);
      RatiosCons(a[0], a[1..], zero);
      RatiosCons(a[0], a[1..] + b, zero);
      assert a == [a[0]] + a[1..] && a + b == [a[0]] + (a[1..] + b);
    }
  }

  lemma {:induction false} PositiveOfSatellites(sats: seq<Satellite>)
    ensures Positive(RowsOf(sats)) == Ratios(sats, false)
  {
    if sats != [] {
      PositiveOfSatellites(sats[1..]);
      RowsOfStep(sats);
      PositiveAppend(RowsOf([sats[0]]), RowsOf(sats[1..]));
      PositiveOfOne(sats[0]);
    }
  }

  lemma PositiveOfOne(s: Satellite)
    ensures Positive(RowsOf([s])) == if s.prn != 0 && OrZero(s.snr) > 0 then [OrZero(s.snr)] else []
  {
    assert RowsOf([s][1..]) == [];
    var row := Row(s.prn, OrZero(s.elev), OrZero(s.az), OrZero(s.snr));
    assert Positive([row][1..]) == [];
  }

  /** The merged rows hold the ratios of the satellites with a number. */
  lemma {:induction false} PositiveOfGroups(groups: seq<seq<Satellite>>)
    ensures Positive(AllRows(groups)) == Ratios(AllSatellites(groups), false)
  {
    if groups != [] {
      PositiveOfGroups(groups[1..]);
      PositiveOfSatellites(groups[0]);
      PositiveAppend(RowsOf(groups[0]), AllRows(groups[1..]));
      RatiosAppend(groups[0], AllSatellites(groups[1..]), false);
    }
  }

  lemma TotalCons(n: int, snrs: seq<int>)
    ensures Total([n] + snrs) == n + Total(snrs)
  {
    assert ([n] + snrs)[1..] == snrs;
  }

  lemma {:induction false} RatiosSplit(sats: seq<Satellite>)
    ensures |AllRatios(sats)| == |Ratios(sats, false)| + |Ratios(sats, true)|
    ensures Total(AllRatios(sats)) == Total(Ratios(sats, false)) + Total(Ratios(sats, true))
    ensures Total(Ratios(sats, false)) >= |Ratios(sats, false)| && Total(Ratios(sats, true)) >= |Ratios(sats, true)|
  {
    if sats != [] {
      var rest, n := sats[1..], OrZero(sats[0].snr);
      RatiosSplit(rest);
      TotalCons(n, AllRatios(rest));
      TotalCons(n, Ratios(rest, false));
      TotalCons(n, Ratios(rest, true));
      NothingAdded(AllRatios(rest), Ratios(rest, false), Ratios(rest, true));
    }
  }

  lemma NothingAdded(a: seq<int>, b: seq<int>, c: seq<int>)
    ensures [] + a == a && [] + b == b && [] + c == c
  {
  }

  /** The mean over the numbered satellites is the mean over all exactly when the others are harmless. */
  lemma MeansAgreeIff(sats: seq<Satellite>)
    ensures Mean(Ratios(sats, false)) == Mean(AllRatios(sats)) <==> ZerosHarmless(sats)
  {
    RatiosSplit(sats);
    var zeros, others, all := Ratios(sats, true), Ratios(sats, false), AllRatios(sats);
    if others == [] {
      if zeros != [] {
        QuotientPositive(Total(all) as real, |all| as real);
      }
    } else {
      QuotientsEqualIff(Total(others), |others|, Total(all), |all|);
      ShareOfSum(Total(others), |others|, Total(zeros), |zeros|);
    }
  }

  lemma QuotientPositive(a: real, b: real)
    requires a > 0.0 && b > 0.0
    ensures a / b > 0.0
  {
  }

  lemma QuotientsEqualIff(a: int, m: int, b: int, n: int)
    requires m > 0 && n > 0
    ensures a as real / m as real == b as real / n as real <==> a * n == b * m
  {
    var x, y := a as real / m as real, b as real / n as real;
    var p, q := m as real, n as real;
    assert x * p == a as real && y * q == b as real;
    assert (a * n) as real == x * p * q;
    assert (b * m) as real == y * q * p == y * p * q;
    assert p * q > 0.0;
    if x * (p * q) == y * (p * q) {
      CancelFactor(x, y, p * q);
    }
  }

  lemma CancelFactor(x: real, y: real, f: real)
    requires f > 0.0 && x * f == y * f
    ensures x == y
  {
    assert (x - y) * f == 0.0;
  }

  lemma ShareOfSum(a: int, m: int, z: int, k: int)
    ensures a * (m + k) == (a + z) * m <==> z * m == a * k
  {
    assert a * (m + k) == a * m + a * k;
    assert (a + z) * m == a * m + z * m;
  }

  /** A reached series in which every satellite counts is reported right, whatever preceded it. */
  lemma SeriesReportsMean(s: State, header: string, inView: int, groups: seq<seq<Satellite>>)
    requires Header(header) && groups != [] && groups[0] != [] && Last(groups) != []
    ensures var r := FeedAll(s, Series(header, |groups|, 1, inView, groups));
      Reports(r, AllSatellites(groups), inView) <==> ZerosHarmless(AllSatellites(groups))
  {
    SeriesReported(s, header, inView, groups);
    PositiveOfGroups(groups);
    MeansAgreeIff(AllSatellites(groups));
  }

  // ----- exactly when a series is reported right -----

  /** The report of a series is right in every state a session can be in. */
  ghost predicate AlwaysRight(header: string, inView: int, groups: seq<seq<Satellite>>)
    requires Header(header)
  {
    forall s :: Reachable(s) ==>
      Reports(FeedAll(s, Series(header, |groups|, 1, inView, groups)), AllSatellites(groups), inView)
  }

  lemma StartReachable()
    ensures Reachable(START)
  {
    assert FeedAll(START, []) == Some(START);
  }

  /** The state after the first sentence of an unfinished series with one satellite. */
  function Unfinished(total: int, snr: int): State
  {
    State(total, 1, Some([Row(1, 0, 0, snr)]), None, None)
  }

  lemma LineParsed(header: string, total: int, sats: seq<Satellite>, rows: seq<Row>)
    requires Header(header) && sats != [] && rows == RowsOf(sats)
    ensures ParseAll([Print(header, total, 1, 1, sats)]) == [Some(Sentence(total, 1, 1, rows))]
  {
    var line := Print(header, total, 1, 1, sats);
    ParseCons(line, []);
    assert [line] + [] == [line];
    ParsePrinted(header, total, 1, 1, sats);
  }

  lemma OneRow(snr: int)
    ensures RowsOf([Satellite(1, None, None, Some(snr))]) == [Row(1, 0, 0, snr)]
  {
    assert RowsOf([Satellite(1, None, None, Some(snr))][1..]) == [];
  }

  lemma TakeFirst(total: int, snr: int)
    requires total > 1
    ensures TakeAll(START, [Some(Sentence(total, 1, 1, [Row(1, 0, 0, snr)]))]) == Some(Unfinished(total, snr))
  {
    var g := Some(Sentence(total, 1, 1, [Row(1, 0, 0, snr)]));
    assert [g][1..] == [];
    assert [] + [Row(1, 0, 0, snr)] == [Row(1, 0, 0, snr)];
  }

  lemma ReachableBy(header: string, total: int, sats: seq<Satellite>, snr: int)
    requires Header(header) && total > 1 && sats != [] && RowsOf(sats) == [Row(1, 0, 0, snr)]
    ensures Reachable(Unfinished(total, snr))
  {
    LineParsed(header, total, sats, [Row(1, 0, 0, snr)]);
    TakeFirst(total, snr);
    assert FeedAll(START, [Print(header, total, 1, 1, sats)]) == Some(Unfinished(total, snr));
  }

  /** One printed sentence brings a new session there. */
  lemma UnfinishedReachable(header: string, total: int, snr: int)
    requires Header(header) && total > 1
    ensures Reachable(Unfinished(total, snr))
  {
    OneRow(snr);
    ReachableBy(header, total, [Satellite(1, None, None, Some(snr))], snr);
  }

  /** What an unfinished series leaves behind counts: two such states give two different means. */
  lemma StaleMeansDiffer(rows: seq<Row>)
    ensures MeanSnr([Row(1, 0, 0, 1)] + rows) != MeanSnr([Row(1, 0, 0, 2)] + rows)
  {
    var a, b := Row(1, 0, 0, 1), Row(1, 0, 0, 2);
    PositiveCons(a, rows);
    PositiveCons(b, rows);
    var n := |Positive(rows)| + 1;
    QuotientsEqualIff(Total(Positive(rows)) + 1, n, Total(Positive(rows)) + 2, n);
    assert (Total(Positive(rows)) + 1) * n + n == (Total(Positive(rows)) + 2) * n;
  }

  lemma PositiveCons(r: Row, rows: seq<Row>)
    requires r.snr > 0
    ensures Positive([r] + rows) == [r.snr] + Positive(rows)
    ensures Total(Positive([r] + rows)) == r.snr + Total(Positive(rows))
  {
    assert ([r] + rows)[1..] == rows;
    TotalCons(r.snr, Positive(rows));
  }

  /** Without satellites in the first sentence some state makes the report wrong. */
  lemma SomeStateMisleads(header: string, inView: int, groups: seq<seq<Satellite>>)
    requires Header(header) && |groups| > 1 && groups[0] == [] && Last(groups) != []
    ensures !AlwaysRight(header, inView, groups)
  {
    var a, b := Unfinished(|groups|, 1), Unfinished(|groups|, 2);
    UnfinishedReachable(header, |groups|, 1);
    UnfinishedReachable(header, |groups|, 2);
    StaleSatellitesCount(a, header, inView, groups, [Row(1, 0, 0, 1)]);
    StaleSatellitesCount(b, header, inView, groups, [Row(1, 0, 0, 2)]);
    StaleMeansDiffer(AllRows(groups));
  }

  /**
   * A series is reported right in every state a session can be in, exactly when its first and its last sentence
   * have satellites and those with number zero are harmless.
   */
  lemma AlwaysRightIff(header: string, inView: int, groups: seq<seq<Satellite>>)
    requires Header(header) && groups != []
    ensures AlwaysRight(header, inView, groups) <==>
      groups[0] != [] && Last(groups) != [] && ZerosHarmless(AllSatellites(groups))
  {
    StartReachable();
    if Last(groups) == [] {
      NoReportWithoutLast(START, header, inView, groups);
    } else if groups[0] == [] {
      SomeStateMisleads(header, inView, groups);
    } else {
      SeriesReportsMean(START, header, inView, groups);
      forall s | Reachable(s) && ZerosHarmless(AllSatellites(groups))
        ensures Reports(FeedAll(s, Series(header, |groups|, 1, inView, groups)), AllSatellites(groups), inView)
      {
        SeriesReportsMean(s, header, inView, groups);
      }
    }
  }

  /** A single satellite with number zero: its ratio is 40, and the report says 0. */
  lemma ZeroNumberMisreported(s: State, header: string, inView: int)
    requires Header(header)
    ensures var groups := [[Satellite(0, None, None, Some(40))]];
      var r := FeedAll(s, Series(header, 1, 1, inView, groups));
      Mean(AllRatios(AllSatellites(groups))) == 40.0 && r.Some? && r.value.mean == Some(0.0)
  {
    var sat := Satellite(0, None, None, Some(40));
    var groups := [[sat]];
    SeriesReported(s, header, inView, groups);
    assert groups[1..] == [] && [sat][1..] == [] && [40][1..] == [];
    assert AllRows(groups) == [] by {
      assert RowsOf([sat]) == [];
    }
    assert AllSatellites(groups) == [sat];
    assert AllRatios([sat]) == [40];
  }
}
