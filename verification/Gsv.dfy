/**
 * Satellites in view: `_checksum_ok` and `parse_gsv` of src/nmea.py, and the merging of a series of GSV
 * sentences in `_rover_read_loop` of src/caster.py. Text is ASCII.
 */
module Gsv {
  import opened ByteStrings
  import opened Texts

  // ----- checksum -----

  function XorAll(s: string): nat
  {
    if s == [] then 0 else NatXor(XorAll(s[..|s| - 1]), s[|s| - 1] as nat)
  }

  /** `body[1:]`. */
  function Rest(body: string): string
  {
    if body == [] then [] else body[1..]
  }

  predicate ChecksumOk(sentence: string)
  {
    '*' in sentence &&
    var star := FindLast(sentence, '*');
    ReadInt(Strip(sentence[star + 1..]), 16) == Some(XorAll(Rest(sentence[..star])))
  }

  /** `_checksum_ok`. */
  method ComputeChecksumOk(sentence: string) returns (ok: bool)
    ensures ok == ChecksumOk(sentence)
  {
    if '*' !in sentence {
      return false;
    }
    var star := FindLast(sentence, '*');
    var val := ReadInt(Strip(sentence[star + 1..]), 16);
    if val == None {
      return false;
    }
    var chars := Rest(sentence[..star]);
    var x := 0;
    for i := 0 to |chars|
      invariant x == XorAll(chars[..i])
    {
      assert chars[..i + 1][..i] == chars[..i];
      x := NatXor(x, chars[i] as nat);
    }
    assert chars[..|chars|] == chars;
    return x == val.value;
  }

  // ----- parsing -----

  datatype Row = Row(prn: int, elev: int, az: int, snr: int)

  datatype Sentence = Sentence(total: int, num: int, inView: int, rows: seq<Row>)

  /** A blank field counts as zero; None stands for ValueError. */
  function FieldInt(field: string): Option<int>
  {
    if field == [] then Some(0) else ReadInt(field, 10)
  }

  /** `field.split("*")[0]`. */
  function BeforeStar(field: string): string
  {
    field[..Find(field, '*')]
  }

  /** The satellite of a group of four fields, unless a field is not a number or the number is zero. */
  function RowOf(f: seq<string>): seq<Row>
    requires |f| == 4
  {
    var prn, elev, az, snr := FieldInt(f[0]), FieldInt(f[1]), FieldInt(f[2]), FieldInt(BeforeStar(f[3]));
    if prn.Some? && elev.Some? && az.Some? && snr.Some? && prn.value != 0
    then [Row(prn.value, elev.value, az.value, snr.value)] else []
  }

  function Rows(fields: seq<string>): seq<Row>
    decreases |fields|
  {
    if |fields| < 4 then [] else RowOf(fields[..4]) + Rows(fields[4..])
  }

  function ReadSentence(parts: seq<string>): Option<Sentence>
  {
    if |parts| < 4 then None
    else
      var total, num, inView := ReadInt(parts[1], 10), ReadInt(parts[2], 10), ReadInt(parts[3], 10);
      if total == None || num == None || inView == None then None
      else Some(Sentence(total.value, num.value, inView.value, Rows(parts[4..])))
  }

  function ParseGsv(line: string): Option<Sentence>
  {
    if line == [] || line[0] != '$' || '*' !in line || !ChecksumOk(line) then None else ReadSentence(Split(line, ','))
  }

  lemma RowsStep(fields: seq<string>, i: nat, sats: seq<Row>)
    requires i + 3 < |fields|
    ensures sats + Rows(fields[i..]) == sats + RowOf(fields[i..i + 4]) + Rows(fields[i + 4..])
  {
    var rest := fields[i..];
    assert rest[..4] == fields[i..i + 4] && rest[4..] == fields[i + 4..];
    assert Rows(rest) == RowOf(rest[..4]) + Rows(rest[4..]);
  }

  lemma {:induction false} RowsAppend(a: seq<string>, b: seq<string>)
    requires |a| % 4 == 0
    ensures Rows(a + b) == Rows(a) + Rows(b)
    decreases |a|
  {
    if a == [] {
      assert a + b == b;
    } else {
      assert (a + b)[..4] == a[..4] && (a + b)[4..] == a[4..] + b;
      RowsAppend(a[4..], b);
    }
  }

  /** A character that stands in no number. */
  predicate Junk(c: char)
  {
    Digit(c, 10) == None && c != '_' && c != '-' && c != '+' && !IsSpace(c, false)
  }

  lemma JunkField(field: string, c: char)
    requires Junk(c) && c in field
    ensures FieldInt(field) == None
  {
    JunkIsNoNumber(field, c);
  }

  lemma JunkRow(group: seq<string>, i: nat, c: char)
    requires |group| == 4 && i < 4 && Junk(c) && c in (if i < 3 then group[i] else BeforeStar(group[i]))
    ensures RowOf(group) == []
  {
    JunkField(if i < 3 then group[i] else BeforeStar(group[i]), c);
    if i == 0 {
      assert FieldInt(group[0]) == None;
    } else if i == 1 {
      assert FieldInt(group[1]) == None;
    } else if i == 2 {
      assert FieldInt(group[2]) == None;
    } else {
      assert FieldInt(BeforeStar(group[3])) == None;
    }
  }

  lemma FirstGroup(group: seq<string>, rest: seq<string>)
    requires |group| == 4
    ensures Rows(group + rest) == RowOf(group) + Rows(rest)
  {
    var all := group + rest;
    assert all[..4] == group && all[4..] == rest;
  }

  /** A group with such a character in one of its fields, before any star in the last, is skipped alone. */
  lemma JunkGroupSkipped(a: seq<string>, group: seq<string>, b: seq<string>, i: nat, c: char)
    requires |a| % 4 == 0 && |group| == 4 && i < 4 && Junk(c)
    requires c in (if i < 3 then group[i] else BeforeStar(group[i]))
    ensures Rows(a + (group + b)) == Rows(a) + Rows(b)
  {
    RowsAppend(a, group + b);
    FirstGroup(group, b);
    JunkRow(group, i, c);
    assert [] + Rows(b) == Rows(b);
  }

  /** Up to three fields left over are ignored. */
  lemma LeftoverIgnored(a: seq<string>, b: seq<string>)
    requires |a| % 4 == 0 && |b| < 4
    ensures Rows(a + b) == Rows(a)
  {
    RowsAppend(a, b);
  }

  /** The loop of `parse_gsv` over the groups of four fields. */
  method ReadRows(parts: seq<string>) returns (sats: seq<Row>)
    requires |parts| >= 4
    ensures sats == Rows(parts[4..])
  {
    sats := [];
    var i := 4;
    while i + 3 < |parts|
      invariant 4 <= i <= |parts|
      invariant Rows(parts[4..]) == sats + Rows(parts[i..])
    {
      RowsStep(parts, i, sats);
      sats := sats + RowOf(parts[i..i + 4]);
      i := i + 4;
    }
  }

  /** `parse_gsv`. */
  method ParseGsvLine(line: string) returns (r: Option<Sentence>)
    ensures r == ParseGsv(line)
  {
    if line == [] || line[0] != '$' || '*' !in line {
      return None;
    }
    var ok := ComputeChecksumOk(line);
    if !ok {
      return None;
    }
    var parts := Split(line, ',');
    if |parts| < 4 {
      return None;
    }
    var total, num, inView := ReadInt(parts[1], 10), ReadInt(parts[2], 10), ReadInt(parts[3], 10);
    if total == None || num == None || inView == None {
      return None;
    }
    var sats := ReadRows(parts);
    return Some(Sentence(total.value, num.value, inView.value, sats));
  }

  // ----- printing -----

  /** What a receiver reports of a satellite; a missing value is printed as a blank field. */
  datatype Satellite = Satellite(prn: int, elev: Option<int>, az: Option<int>, snr: Option<int>)

  function OrZero(v: Option<int>): int
  {
    if v == None then 0 else v.value
  }

  function PrintField(v: Option<int>): string
  {
    if v == None then [] else PrintInt(v.value)
  }

  function SatelliteFields(s: Satellite): (f: seq<string>)
    ensures |f| == 4
  {
    [PrintInt(s.prn), PrintField(s.elev), PrintField(s.az), PrintField(s.snr)]
  }

  function Fields(sats: seq<Satellite>): (f: seq<string>)
    ensures |f| == 4 * |sats|
  {
    if sats == [] then [] else SatelliteFields(sats[0]) + Fields(sats[1..])
  }

  /** The satellites as the parser returns them: number zero is left out. */
  function RowsOf(sats: seq<Satellite>): seq<Row>
  {
    if sats == [] then []
    else
      var s := sats[0];
      (if s.prn == 0 then [] else [Row(s.prn, OrZero(s.elev), OrZero(s.az), OrZero(s.snr))]) + RowsOf(sats[1..])
  }

  /** The satellites one by one, blank fields as zero. */
  function FullRows(sats: seq<Satellite>): (r: seq<Row>)
    ensures |r| == |sats|
  {
    seq(|sats|, i requires 0 <= i < |sats| =>
      Row(sats[i].prn, OrZero(sats[i].elev), OrZero(sats[i].az), OrZero(sats[i].snr)))
  }

  predicate AllNumbered(sats: seq<Satellite>)
  {
    forall s :: s in sats ==> s.prn != 0
  }

  lemma {:induction false} RowsOfSize(sats: seq<Satellite>)
    ensures |RowsOf(sats)| <= |sats|
    ensures |RowsOf(sats)| == |sats| <==> AllNumbered(sats)
  {
    if sats != [] {
      RowsOfSize(sats[1..]);
      assert sats == [sats[0]] + sats[1..];
    }
  }

  lemma {:induction false} RowsOfNumbered(sats: seq<Satellite>)
    requires AllNumbered(sats)
    ensures RowsOf(sats) == FullRows(sats)
  {
    if sats != [] {
      assert sats[0] in sats && forall s :: s in sats[1..] ==> s in sats;
      RowsOfNumbered(sats[1..]);
      assert FullRows(sats) == [FullRows(sats)[0]] + FullRows(sats[1..]);
    }
  }

  predicate Ascii(s: string)
  {
    forall i :: 0 <= i < |s| ==> (s[i] as int) < 128
  }

  predicate Header(s: string)
  {
    s != [] && s[0] == '$' && ',' !in s && Ascii(s)
  }

  function AllFields(header: string, total: int, num: int, inView: int, sats: seq<Satellite>): (f: seq<string>)
    ensures |f| == 4 + 4 * |sats|
  {
    [header, PrintInt(total), PrintInt(num), PrintInt(inView)] + Fields(sats)
  }

  /** The characters of a printed number or blank. */
  predicate Numeric(s: string)
  {
    forall c :: c in s ==> '0' <= c <= '9' || c == '-'
  }

  lemma {:induction false} FieldsNumeric(sats: seq<Satellite>)
    ensures forall f :: f in Fields(sats) ==> Numeric(f)
  {
    if sats != [] {
      FieldsNumeric(sats[1..]);
      var s := sats[0];
      assert Numeric(PrintInt(s.prn)) && Numeric(PrintField(s.elev)) && Numeric(PrintField(s.az)) &&
        Numeric(PrintField(s.snr));
    }
  }

  lemma AllFieldsPlain(header: string, total: int, num: int, inView: int, sats: seq<Satellite>)
    requires Header(header)
    ensures forall f :: f in AllFields(header, total, num, inView, sats) ==> ',' !in f && Ascii(f)
  {
    FieldsNumeric(sats);
    forall f | f in AllFields(header, total, num, inView, sats)
      ensures ',' !in f && Ascii(f)
    {
      if f != header {
        assert f in [PrintInt(total), PrintInt(num), PrintInt(inView)] || f in Fields(sats);
        NumericPlain(f);
      }
    }
  }

  lemma NumericPlain(f: string)
    requires Numeric(f)
    ensures ',' !in f && Ascii(f)
  {
    assert forall i :: 0 <= i < |f| ==> f[i] in f;
  }

  lemma {:induction false} JoinAscii(fields: seq<string>)
    requires fields != [] && forall f :: f in fields ==> Ascii(f)
    ensures Ascii(Join(fields, ','))
  {
    assert Ascii(fields[0]);
    if |fields| > 1 {
      JoinAscii(fields[1..]);
    }
  }

  lemma {:induction false} XorAllBound(s: string)
    requires Ascii(s)
    ensures XorAll(s) < 128
  {
    if s != [] {
      XorAllBound(s[..|s| - 1]);
      assert Pow2(7) == 128 by {
        assert Pow2(3) == 8;
        assert Pow2(5) == 32;
      }
      NatXorBound(XorAll(s[..|s| - 1]), s[|s| - 1] as nat, 7);
    }
  }

  function Body(header: string, total: int, num: int, inView: int, sats: seq<Satellite>): string
  {
    Join(AllFields(header, total, num, inView, sats), ',')
  }

  lemma BodyFacts(header: string, total: int, num: int, inView: int, sats: seq<Satellite>)
    requires Header(header)
    ensures var b := Body(header, total, num, inView, sats); b != [] && b[0] == '$' && XorAll(b[1..]) < 128
  {
    var fields := AllFields(header, total, num, inView, sats);
    AllFieldsPlain(header, total, num, inView, sats);
    JoinAscii(fields);
    var b := Join(fields, ',');
    assert b == header + ([','] + Join(fields[1..], ','));
    XorAllBound(b[1..]);
  }

  /** The star and the checksum that end a sentence. */
  function Tail(x: nat): (t: string)
    requires x < 128
    ensures t != [] && t[0] == '*'
  {
    ['*'] + PrintHex(x)
  }

  /** Satellites printed into one checksummed sentence. */
  function Print(header: string, total: int, num: int, inView: int, sats: seq<Satellite>): string
    requires Header(header)
  {
    var b := Body(header, total, num, inView, sats);
    BodyFacts(header, total, num, inView, sats);
    b + Tail(XorAll(b[1..]))
  }

  // ----- one sentence, printed and parsed -----

  lemma HexPlain(x: nat)
    requires x < 128
    ensures '*' !in PrintHex(x) && ',' !in PrintHex(x) && ',' !in Tail(x)
  {
    assert !Plain('*') && !Plain(',');
  }

  /** Two hexadecimal digits behind the last star are accepted exactly when they are the exclusive or of the body. */
  lemma ChecksumDecides(body: string, x: nat)
    requires x < 128
    ensures ChecksumOk(body + Tail(x)) <==> x == XorAll(Rest(body))
  {
    var s := body + Tail(x);
    HexPlain(x);
    assert s == body + ['*'] + PrintHex(x);
    FindLastAppend(body, '*', PrintHex(x));
    assert s[..|body|] == body && s[|body| + 1..] == PrintHex(x);
    assert s[|body|] == '*';
    TrimPlain(PrintHex(x), true);
    ReadPrintHex(x);
  }

  lemma {:induction false} XorInjective(a: nat, b: nat, c: nat)
    requires NatXor(a, c) == NatXor(b, c)
    ensures a == b
    decreases a + b + c
  {
    if a + b + c > 0 {
      XorInjective(a / 2, b / 2, c / 2);
    }
  }

  lemma {:induction false} XorCommutes(a: nat, b: nat)
    ensures NatXor(a, b) == NatXor(b, a)
    decreases a + b
  {
    if a + b > 0 {
      XorCommutes(a / 2, b / 2);
    }
  }

  /** Changing one character changes the exclusive or. */
  lemma {:induction false} OneChangeShows(s: string, i: nat, c: char)
    requires i < |s| && c != s[i]
    ensures XorAll(s[i := c]) != XorAll(s)
  {
    var n, t := |s| - 1, s[i := c];
    if i == n {
      assert t[..n] == s[..n];
      XorCommutes(XorAll(s[..n]), s[n] as nat);
      XorCommutes(XorAll(s[..n]), c as nat);
      if XorAll(t) == XorAll(s) {
        XorInjective(s[n] as nat, c as nat, XorAll(s[..n]));
      }
    } else {
      assert t[..n] == s[..n][i := c] && t[n] == s[n];
      OneChangeShows(s[..n], i, c);
      if XorAll(t) == XorAll(s) {
        XorInjective(XorAll(t[..n]), XorAll(s[..n]), s[n] as nat);
      }
    }
  }

  lemma ReadField(v: Option<int>)
    ensures FieldInt(PrintField(v)) == Some(OrZero(v))
  {
    if v.Some? {
      ReadPrintInt(v.value);
    }
  }

  /** What stands before the star of a last field. */
  lemma BeforeStarOf(field: string, tail: string)
    requires Numeric(field) && (tail == [] || tail[0] == '*')
    ensures BeforeStar(field + tail) == field
  {
    assert '*' !in field;
    if tail == [] {
      assert field + tail == field;
    } else {
      assert field + tail == field + ['*'] + tail[1..];
      FindAppend(field, '*', tail[1..]);
    }
  }

  lemma ReadSatellite(s: Satellite, tail: string)
    requires tail == [] || tail[0] == '*'
    ensures RowOf(Extended(SatelliteFields(s), tail)) == RowsOf([s])
  {
    var f := Extended(SatelliteFields(s), tail);
    assert f == [PrintInt(s.prn), PrintField(s.elev), PrintField(s.az), PrintField(s.snr) + tail];
    ReadField(Some(s.prn));
    ReadField(s.elev);
    ReadField(s.az);
    ReadField(s.snr);
    BeforeStarOf(PrintField(s.snr), tail);
    assert RowsOf([s][1..]) == [];
  }

  lemma RowsOfStep(sats: seq<Satellite>)
    requires sats != []
    ensures RowsOf(sats) == RowsOf([sats[0]]) + RowsOf(sats[1..])
  {
    assert RowsOf([sats[0]][1..]) == [];
  }

  lemma ExtendedAppend(a: seq<string>, b: seq<string>, tail: string)
    requires b != []
    ensures Extended(a + b, tail) == a + Extended(b, tail)
  {
    assert (a + b)[..|a + b| - 1] == a + b[..|b| - 1];
  }

  lemma ExtendedByNothing(a: seq<string>)
    requires a != []
    ensures Extended(a, []) == a
  {
    assert a[|a| - 1] + [] == a[|a| - 1];
  }

  lemma FirstFields(sats: seq<Satellite>, tail: string)
    requires |sats| > 1
    ensures var all := Extended(Fields(sats), tail);
      all[..4] == Extended(SatelliteFields(sats[0]), []) && all[4..] == Extended(Fields(sats[1..]), tail)
  {
    var first := SatelliteFields(sats[0]);
    ExtendedAppend(first, Fields(sats[1..]), tail);
    ExtendedByNothing(first);
  }

  lemma {:induction false} ReadSatellites(sats: seq<Satellite>, tail: string)
    requires sats != [] && tail != [] && tail[0] == '*'
    ensures Rows(Extended(Fields(sats), tail)) == RowsOf(sats)
  {
    var all := Extended(Fields(sats), tail);
    RowsOfStep(sats);
    assert Rows(all) == RowOf(all[..4]) + Rows(all[4..]);
    if |sats| == 1 {
      assert Fields(sats) == SatelliteFields(sats[0]);
      ReadSatellite(sats[0], tail);
      assert all[..4] == all && all[4..] == [];
      assert RowsOf(sats[1..]) == [];
    } else {
      ReadSatellite(sats[0], []);
      FirstFields(sats, tail);
      ReadSatellites(sats[1..], tail);
    }
  }

  /** A number with a checksum behind it is not a number. */
  lemma NotANumber(n: int, x: nat)
    requires x < 128
    ensures ReadInt(PrintInt(n) + Tail(x), 10) == None
  {
    assert '*' in Tail(x);
    JunkIsNoNumber(PrintInt(n) + Tail(x), '*');
  }

  lemma SplitPrinted(header: string, total: int, num: int, inView: int, sats: seq<Satellite>, x: nat)
    requires Header(header) && x < 128
    ensures Split(Body(header, total, num, inView, sats) + Tail(x), ',') ==
      Extended(AllFields(header, total, num, inView, sats), Tail(x))
  {
    AllFieldsPlain(header, total, num, inView, sats);
    HexPlain(x);
    SplitJoin(AllFields(header, total, num, inView, sats), ',', Tail(x));
  }

  lemma ReadPrinted(header: string, total: int, num: int, inView: int, sats: seq<Satellite>, x: nat)
    requires x < 128 && sats != []
    ensures ReadSentence(Extended(AllFields(header, total, num, inView, sats), Tail(x))) ==
      Some(Sentence(total, num, inView, RowsOf(sats)))
  {
    var front := [header, PrintInt(total), PrintInt(num), PrintInt(inView)];
    var rest := Extended(Fields(sats), Tail(x));
    ExtendedAppend(front, Fields(sats), Tail(x));
    assert (front + rest)[4..] == rest;
    ReadPrintInt(total);
    ReadPrintInt(num);
    ReadPrintInt(inView);
    ReadSatellites(sats, Tail(x));
  }

  lemma RefusePrinted(header: string, total: int, num: int, inView: int, x: nat)
    requires x < 128
    ensures ReadSentence(Extended(AllFields(header, total, num, inView, []), Tail(x))) == None
  {
    var parts := Extended(AllFields(header, total, num, inView, []), Tail(x));
    assert parts[3] == PrintInt(inView) + Tail(x);
    NotANumber(inView, x);
  }

  /**
   * A printed sentence with satellites is read back with all of them but those numbered 0; one without any is
   * refused, because its checksum then stands in the field that counts the satellites in view.
   */
  lemma ParsePrinted(header: string, total: int, num: int, inView: int, sats: seq<Satellite>)
    requires Header(header)
    ensures ParseGsv(Print(header, total, num, inView, sats)) ==
      if sats == [] then None else Some(Sentence(total, num, inView, RowsOf(sats)))
  {
    var b := Body(header, total, num, inView, sats);
    BodyFacts(header, total, num, inView, sats);
    var x := XorAll(b[1..]);
    var line := b + Tail(x);
    assert line[0] == '$' && line[|b|] == '*';
    ChecksumDecides(b, x);
    SplitPrinted(header, total, num, inView, sats, x);
    if sats == [] {
      RefusePrinted(header, total, num, inView, x);
    } else {
      ReadPrinted(header, total, num, inView, sats, x);
    }
  }

  /**
   * Only a line that starts with a dollar sign, with the exclusive or of its body behind the last star and at least
   * three commas, is read; and its first three fields are numbers.
   */
  lemma ReadOnlyIf(line: string, body: string, tail: string)
    requires '*' !in tail && line == body + ['*'] + tail && ParseGsv(line).Some?
    ensures line[0] == '$' && ReadInt(Strip(tail), 16) == Some(XorAll(Rest(body)))
    ensures var parts, s := Split(line, ','), ParseGsv(line).value;
      && |parts| >= 4 && ReadInt(parts[1], 10) == Some(s.total) && ReadInt(parts[2], 10) == Some(s.num)
      && ReadInt(parts[3], 10) == Some(s.inView)
  {
    FindLastAppend(body, '*', tail);
    assert line[..|body|] == body && line[|body| + 1..] == tail;
  }

  /** A printed sentence with any one character between the first and the checksum changed is refused. */
  lemma DamageRefused(header: string, total: int, num: int, inView: int, sats: seq<Satellite>, i: nat, c: char)
    requires Header(header) && 0 < i < |Body(header, total, num, inView, sats)|
    requires c != Body(header, total, num, inView, sats)[i]
    ensures ParseGsv(Print(header, total, num, inView, sats)[i := c]) == None
  {
    var b := Body(header, total, num, inView, sats);
    BodyFacts(header, total, num, inView, sats);
    var x := XorAll(b[1..]);
    OneChangeShows(b[1..], i - 1, c);
    assert b[i := c][1..] == b[1..][i - 1 := c];
    assert (b + Tail(x))[i := c] == b[i := c] + Tail(x);
    ChecksumDecides(b[i := c], x);
  }

  /** All satellites of a printed sentence are read back exactly when it has some and none has number zero. */
  lemma ReadBackIff(header: string, total: int, num: int, inView: int, sats: seq<Satellite>)
    requires Header(header)
    ensures ParseGsv(Print(header, total, num, inView, sats)) == Some(Sentence(total, num, inView, FullRows(sats)))
      <==> sats != [] && AllNumbered(sats)
  {
    ParsePrinted(header, total, num, inView, sats);
    RowsOfSize(sats);
    if AllNumbered(sats) {
      RowsOfNumbered(sats);
    }
  }
}
