/**
 * The peak catalog: records as read from the catalog file, the height
 * normalisation that turns the Height text into an integer, and the
 * ordering by height, tallest first.
 */
module Catalog {
  import opened Wrappers
  import opened Text

  /** One row of the catalog file. Latitude and longitude are carried as already-parsed optional values. */
  datatype CatalogRecord = CatalogRecord(
    mountain: string,
    height: string,
    latitude: Option<real>,
    longitude: Option<real>,
    region: string)

  /** A normalised peak: `height` in whole metres, `heightDisplay` the Height text as it was in the file. */
  datatype Peak = Peak(
    mountain: string,
    height: nat,
    heightDisplay: string,
    latitude: Option<real>,
    longitude: Option<real>,
    region: string)

  /** The Height text with every `m` and `,` removed and the surrounding whitespace stripped. */
  function CleanHeight(raw: string): (r: string)
    ensures Free(r, 'm') && Free(r, ',')
    ensures r == [] || (!IsSpace(r[0]) && !IsSpace(r[|r| - 1]))
  {
    var t := RemoveAll(RemoveAll(raw, 'm'), ',');
    RemoveAllKeepsFree(RemoveAll(raw, 'm'), ',', 'm');
    Strip(t)
  }

  /** The integer height: the cleaned text read as decimal digits, 0 when it is not a digit string. */
  function NormaliseHeight(raw: string): (h: nat)
    ensures h != 0 ==> CleanHeight(raw) != [] && AllDigits(CleanHeight(raw))
  {
    ParseNat(CleanHeight(raw)).GetOr(0)
  }

  /**
   * The general reading of a height: whenever deleting every `m` and `,`
   * leaves the decimal form of `n` with whitespace around it, the height is `n`.
   */
  lemma HeightOfCleanedDigits(raw: string, n: nat, lead: string, trail: string)
    requires AllSpace(lead) && AllSpace(trail)
    requires RemoveAll(RemoveAll(raw, 'm'), ',') == lead + NatToDigits(n) + trail
    ensures NormaliseHeight(raw) == n
  {
    var d := NatToDigits(n);
    assert !IsSpace(d[0]) && !IsSpace(d[|d| - 1]);
    StripPadded(lead, d, trail);
    ParseNatRoundTrip(n);
  }

  /** Removing a unit marker from whitespace and unit markers leaves whitespace only, with no comma in it. */
  lemma SpaceAndUnitFree(s: string)
    requires AllSpace(RemoveAll(s, 'm'))
    ensures RemoveAll(RemoveAll(s, 'm'), ',') == RemoveAll(s, 'm')
  {
    var t := RemoveAll(s, 'm');
    assert Free(t, ',') by {
      forall i | 0 <= i < |t| ensures t[i] != ',' {
        assert IsSpace(t[i]);
      }
    }
    RemoveAllAbsent(t, ',');
  }

  /**
   * A number written with commas anywhere in it, between two stretches of
   * whitespace and unit markers ("1085", "1,085", "1085m", "1,085 m",
   * " 1085m "), reads back as that number.
   */
  lemma HeightReadsNumberText(n: nat, w: string, lead: string, trail: string)
    requires Free(w, 'm') && RemoveAll(w, ',') == NatToDigits(n)
    requires AllSpace(RemoveAll(lead, 'm')) && AllSpace(RemoveAll(trail, 'm'))
    ensures NormaliseHeight(lead + w + trail) == n
  {
    var l, t := RemoveAll(lead, 'm'), RemoveAll(trail, 'm');
    RemoveAllConcat(lead + w, trail, 'm');
    RemoveAllConcat(lead, w, 'm');
    RemoveAllAbsent(w, 'm');
    assert RemoveAll(lead + w + trail, 'm') == l + w + t;
    RemoveAllConcat(l + w, t, ',');
    RemoveAllConcat(l, w, ',');
    SpaceAndUnitFree(lead);
    SpaceAndUnitFree(trail);
    HeightOfCleanedDigits(lead + w + trail, n, l, t);
  }

  /** A height written plainly ("1085") or with thousands separators ("1,085"), amid whitespace and unit markers, reads back as itself. */
  lemma HeightReadsWrittenNumber(n: nat, grouped: bool, lead: string, trail: string)
    requires AllSpace(RemoveAll(lead, 'm')) && AllSpace(RemoveAll(trail, 'm'))
    ensures NormaliseHeight(lead + (if grouped then GroupThousands(n) else NatToDigits(n)) + trail) == n
  {
    var d := NatToDigits(n);
    assert Free(d, 'm') && Free(d, ',');
    if grouped {
      GroupByThreeFree(d, 'm');
      UngroupThousands(n);
      HeightReadsNumberText(n, GroupThousands(n), lead, trail);
    } else {
      RemoveAllAbsent(d, ',');
      HeightReadsNumberText(n, d, lead, trail);
    }
  }

  lemma Digits1085()
    ensures NatToDigits(1085) == "1085" && GroupThousands(1085) == "1,085"
  {
    assert NatToDigits(1) == "1";
    assert NatToDigits(10) == "10";
    assert NatToDigits(108) == "108";
    assert NatToDigits(1085) == "1085";
    assert GroupByThree("1") == "1";
  }

  /** The worked case "1085": a bare number. */
  lemma HeightExamplePlain()
    ensures NormaliseHeight("1085") == 1085
  {
    Digits1085();
    assert RemoveAll("", 'm') == "";
    HeightReadsWrittenNumber(1085, false, "", "");
    assert "" + "1085" + "" == "1085";
  }

  /** The worked case "1085m": the unit is dropped. */
  lemma HeightExampleUnit()
    ensures NormaliseHeight("1085m") == 1085
  {
    Digits1085();
    assert RemoveAll("", 'm') == "" && RemoveAll("m", 'm') == "";
    HeightReadsWrittenNumber(1085, false, "", "m");
    assert "" + "1085" + "m" == "1085m";
  }

  /** The worked case "1085m ": a space after the unit. */
  lemma HeightExampleUnitSpace()
    ensures NormaliseHeight("1085m ") == 1085
  {
    Digits1085();
    assert RemoveAll("", 'm') == "" && RemoveAll("m ", 'm') == " ";
    HeightReadsWrittenNumber(1085, false, "", "m ");
    assert "" + "1085" + "m " == "1085m ";
  }

  /** The worked case "1,085 m": separator, space and unit are dropped. */
  lemma HeightExampleGrouped()
    ensures NormaliseHeight("1,085 m") == 1085
  {
    Digits1085();
    assert RemoveAll("", 'm') == "" && RemoveAll(" m", 'm') == " ";
    HeightReadsWrittenNumber(1085, true, "", " m");
    assert "" + "1,085" + " m" == "1,085 m";
  }

  /** Text with no unit, separator or padding that is not a digit string normalises to 0. */
  lemma HeightOfNonNumber(raw: string)
    requires Free(raw, 'm') && Free(raw, ',')
    requires raw == [] || (!IsSpace(raw[0]) && !IsSpace(raw[|raw| - 1]))
    requires !AllDigits(raw)
    ensures NormaliseHeight(raw) == 0
  {
    RemoveAllAbsent(raw, 'm');
    RemoveAllAbsent(raw, ',');
    StripPadded("", raw, "");
    assert "" + raw + "" == raw;
  }

  /** The worked case "abc": text that is not a number becomes 0. */
  lemma HeightExampleText()
    ensures NormaliseHeight("abc") == 0
  {
    var t := "abc";
    assert Free(t, 'm') && Free(t, ',');
    assert !IsSpace(t[0]) && !IsSpace(t[2]) && !IsDigit(t[0]);
    HeightOfNonNumber(t);
  }

  /** One catalog record after normalisation: only the height changes type; every other column is kept. */
  function Normalise(rec: CatalogRecord): (p: Peak)
    ensures p.mountain == rec.mountain && p.region == rec.region
    ensures p.latitude == rec.latitude && p.longitude == rec.longitude
    ensures p.heightDisplay == rec.height
    ensures p.height == NormaliseHeight(rec.height)
  {
    Peak(rec.mountain, NormaliseHeight(rec.height), rec.height, rec.latitude, rec.longitude, rec.region)
  }

  function NormaliseAll(recs: seq<CatalogRecord>): (ps: seq<Peak>)
    ensures |ps| == |recs|
    ensures forall i :: 0 <= i < |recs| ==> ps[i] == Normalise(recs[i])
  {
    seq(|recs|, i requires 0 <= i < |recs| => Normalise(recs[i]))
  }

  /** The names of the catalog's peaks. */
  function Names(ps: seq<Peak>): set<string> {
    set i | 0 <= i < |ps| :: ps[i].mountain
  }

  /** Tallest first. */
  predicate ByHeightDesc(ps: seq<Peak>) {
    forall i, j :: 0 <= i < j < |ps| ==> ps[i].height >= ps[j].height
  }

  /** Inserts `p` ahead of the first peak no taller than it, so that equal heights keep their order. */
  function InsertByHeight(p: Peak, ps: seq<Peak>): (r: seq<Peak>)
    requires ByHeightDesc(ps)
    ensures ByHeightDesc(r)
    ensures multiset(r) == multiset(ps) + multiset{p}
    ensures |r| == |ps| + 1
    ensures r[0] == p || (ps != [] && r[0] == ps[0])
  {
    if ps == [] || ps[0].height <= p.height then [p] + ps
    else
      var rest := InsertByHeight(p, ps[1..]);
      assert ps == [ps[0]] + ps[1..];
      [ps[0]] + rest
  }

  /** `sort_values(by='Height', ascending=False)`. */
  function SortByHeight(ps: seq<Peak>): (r: seq<Peak>)
    ensures ByHeightDesc(r)
    ensures multiset(r) == multiset(ps)
  {
    if ps == [] then []
    else
      assert ps == [ps[0]] + ps[1..];
      InsertByHeight(ps[0], SortByHeight(ps[1..]))
  }

  /**
   * Loading the catalog: a missing file stops the program (`None`); otherwise
   * every record is normalised and the peaks come out tallest first.
   */
  function LoadCatalog(file: Option<seq<CatalogRecord>>): (r: Option<seq<Peak>>)
    ensures file.None? <==> r.None?
    ensures r.Some? ==> ByHeightDesc(r.value)
    ensures r.Some? ==> multiset(r.value) == multiset(NormaliseAll(file.value))
  {
    match file
    case None => None
    case Some(recs) => Some(SortByHeight(NormaliseAll(recs)))
  }
}
