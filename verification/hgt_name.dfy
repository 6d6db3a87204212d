/** Decoding of an elevation file name such as `N45E007.hgt` into the
    signed integer-degree cell it covers (hgtIndexFromName). */
module HgtName {
  import opened Base

  /** A one-degree grid cell: latitude and longitude of its corner. */
  datatype HgtIndex = HgtIndex(lat: int, lon: int)

  /** The regular expression's `\d` matches ASCII digits only. */
  predicate IsDigit(c: char) { '0' <= c <= '9' }

  function DigitValue(c: char): (v: nat)
    requires IsDigit(c)
    ensures v < 10
  {
    c as int - '0' as int
  }

  function DigitChar(v: nat): (c: char)
    requires v < 10
    ensures IsDigit(c) && DigitValue(c) == v
  {
    ('0' as int + v) as char
  }

  /** The eleven characters of `u` from position i spell
      `[NS]dd[EW]ddd.HGT`, the pattern the decoder searches for in the
      upper-cased name. */
  predicate MatchAt(u: string, i: nat) {
    && i + 11 <= |u|
    && (u[i] == 'N' || u[i] == 'S')
    && IsDigit(u[i + 1]) && IsDigit(u[i + 2])
    && (u[i + 3] == 'E' || u[i + 3] == 'W')
    && IsDigit(u[i + 4]) && IsDigit(u[i + 5]) && IsDigit(u[i + 6])
    && u[i + 7..i + 11] == ".HGT"
  }

  /** The leftmost match at or after `from`: the pattern is unanchored and
      has a fixed length, so the regular-expression search returns the
      first position where the pattern fits. */
  function FindMatch(u: string, from: nat): (r: Option<nat>)
    ensures r.Some? ==> from <= r.value && MatchAt(u, r.value)
    ensures r.Some? ==> forall j | from <= j < r.value :: !MatchAt(u, j)
    ensures r.None? ==> forall j: nat | from <= j :: !MatchAt(u, j)
    decreases |u| - from
  {
    if |u| < from + 11 then None
    else if MatchAt(u, from) then Some(from)
    else FindMatch(u, from + 1)
  }

  /** The cell spelled by the match at position i; the decimal groups
      always parse, since they are two and three ASCII digits. */
  function CellAt(u: string, i: nat): (c: HgtIndex)
    requires MatchAt(u, i)
    ensures -99 <= c.lat <= 99 && -999 <= c.lon <= 999
    ensures c.lat < 0 ==> u[i] == 'S'
    ensures c.lon < 0 ==> u[i + 3] == 'W'
    ensures u[i] == 'S' ==> c.lat <= 0
    ensures u[i + 3] == 'W' ==> c.lon <= 0
  {
    var lat := 10 * DigitValue(u[i + 1]) + DigitValue(u[i + 2]);
    var lon := 100 * DigitValue(u[i + 4]) + 10 * DigitValue(u[i + 5]) + DigitValue(u[i + 6]);
    HgtIndex(if u[i] == 'S' then -lat else lat, if u[i + 3] == 'W' then -lon else lon)
  }

  /** hgtIndexFromName: upper-case the name, find the pattern anywhere in
      it, and read the cell from the first match. */
  function HgtIndexFromName(name: string): (r: Result<HgtIndex>)
    ensures r.Ok? <==> exists i: nat :: MatchAt(ToUpper(name), i)
    ensures r.Err? ==> r.error == InvalidName
    ensures r.Ok? ==> -99 <= r.value.lat <= 99 && -999 <= r.value.lon <= 999
  {
    var u := ToUpper(name);
    match FindMatch(u, 0)
    case None => Err(InvalidName)
    case Some(i) => Ok(CellAt(u, i))
  }

  /** The decoder reads the leftmost match and ignores everything else in
      the name. */
  lemma DecodesLeftmostMatch(name: string, i: nat)
    requires MatchAt(ToUpper(name), i)
    requires forall j: nat | j < i :: !MatchAt(ToUpper(name), j)
    ensures HgtIndexFromName(name) == Ok(CellAt(ToUpper(name), i))
  {
    var m := FindMatch(ToUpper(name), 0);
    assert m.Some? && !(m.value < i) && !(m.value > i);
  }

  /** Names differing only in letter case decode alike. */
  lemma CaseInsensitive(a: string, b: string)
    requires ToUpper(a) == ToUpper(b)
    ensures HgtIndexFromName(a) == HgtIndexFromName(b)
  {
  }

  function TwoDigits(v: nat): (s: string)
    requires v < 100
    ensures |s| == 2 && IsDigit(s[0]) && IsDigit(s[1])
    ensures 10 * DigitValue(s[0]) + DigitValue(s[1]) == v
  {
    var t := v / 10;
    [DigitChar(t), DigitChar(v - 10 * t)]
  }

  function ThreeDigits(v: nat): (s: string)
    requires v < 1000
    ensures |s| == 3 && IsDigit(s[0]) && IsDigit(s[1]) && IsDigit(s[2])
    ensures 100 * DigitValue(s[0]) + 10 * DigitValue(s[1]) + DigitValue(s[2]) == v
  {
    var h := v / 100;
    var t := (v - 100 * h) / 10;
    [DigitChar(h), DigitChar(t), DigitChar(v - 100 * h - 10 * t)]
  }

  function Abs(v: int): (a: nat) { if v < 0 then -v else v }

  /** The canonical file name of a cell, e.g. `N45E007.hgt` or
      `S10W070.hgt`; the inverse of the decoder. */
  function HgtFileName(c: HgtIndex): (s: string)
    requires -99 <= c.lat <= 99 && -999 <= c.lon <= 999
    ensures |s| == 11
  {
    [if c.lat < 0 then 'S' else 'N'] + TwoDigits(Abs(c.lat))
    + [if c.lon < 0 then 'W' else 'E'] + ThreeDigits(Abs(c.lon)) + ".hgt"
  }

  /** The upper-cased canonical name matches the pattern at its start and
      spells the cell it was made from. */
  lemma CanonicalNameMatches(c: HgtIndex)
    requires -99 <= c.lat <= 99 && -999 <= c.lon <= 999
    ensures MatchAt(ToUpper(HgtFileName(c)), 0)
    ensures CellAt(ToUpper(HgtFileName(c)), 0) == c
  {
    var f := HgtFileName(c);
    var u := ToUpper(f);
    var lat, lon := TwoDigits(Abs(c.lat)), ThreeDigits(Abs(c.lon));
    assert f[1..3] == lat && f[4..7] == lon && f[7..] == ".hgt";
    assert u[1] == f[1] && u[2] == f[2] && u[4] == f[4] && u[5] == f[5] && u[6] == f[6];
    assert u[0] == f[0] && u[3] == f[3];
    assert u[7..11] == ".HGT";
  }

  /** Decoding the canonical name of a cell, followed by any further
      extension such as `.gz`, gives the cell back. */
  lemma {:induction false} NameRoundTrip(c: HgtIndex, suffix: string)
    requires -99 <= c.lat <= 99 && -999 <= c.lon <= 999
    ensures HgtIndexFromName(HgtFileName(c) + suffix) == Ok(c)
  {
    var f := HgtFileName(c);
    var name := f + suffix;
    var u := ToUpper(name);
    ToUpperAppend(f, suffix);
    assert u[..11] == ToUpper(f);
    CanonicalNameMatches(c);
    assert MatchAt(u, 0) && CellAt(u, 0) == CellAt(ToUpper(f), 0);
    DecodesLeftmostMatch(name, 0);
  }

  /** Worked decoding: a lower-case southern and western name. */
  lemma ExampleSouthWest()
    ensures HgtIndexFromName("s10w070.hgt") == Ok(HgtIndex(-10, -70))
  {
    var u := ToUpper("s10w070.hgt");
    assert MatchAt(u, 0) && CellAt(u, 0) == HgtIndex(-10, -70) by {
      assert u == "S10W070.HGT";
    }
    DecodesLeftmostMatch("s10w070.hgt", 0);
  }

  /** Worked decoding: an upper-case extension. */
  lemma ExampleNorthEast()
    ensures HgtIndexFromName("N45E007.HGT") == Ok(HgtIndex(45, 7))
  {
    var u := ToUpper("N45E007.HGT");
    assert MatchAt(u, 0) && CellAt(u, 0) == HgtIndex(45, 7) by {
      assert u == "N45E007.HGT";
    }
    DecodesLeftmostMatch("N45E007.HGT", 0);
  }

  /** Worked decoding: the match is unanchored, so a compressed file's name
      decodes too. */
  lemma ExampleCompressedName()
    ensures HgtIndexFromName("N45E007.hgt.gz") == Ok(HgtIndex(45, 7))
  {
    var u := ToUpper("N45E007.hgt.gz");
    assert MatchAt(u, 0) && CellAt(u, 0) == HgtIndex(45, 7) by {
      assert u == "N45E007.HGT.GZ";
    }
    DecodesLeftmostMatch("N45E007.hgt.gz", 0);
  }

  /** Worked decoding: a name without the pattern is rejected. */
  lemma ExampleGarbage()
    ensures HgtIndexFromName("garbage.hgt") == Err(InvalidName)
  {
    var u := ToUpper("garbage.hgt");
    assert u[0] == 'G';
    assert !MatchAt(u, 0);
  }
}
