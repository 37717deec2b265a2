/** Normalisation of the ministry's fuel-price feed into station records
    (the pure half of `SincronizadorGasolineras`). */
module StationFeed {
  import opened Common
  import opened Text
  import Seqs

  // ---------------------------------------------------------------------
  // parseFloat over the `[whitespace][sign](digits[.digits] | .digits)` prefix

  /** Length of the run of ASCII digits at the start of `s`. */
  function DigitRun(s: string): (n: nat)
    ensures n <= |s| && AllDigits(s[..n])
    ensures n < |s| ==> !IsDigit(s[n])
  {
    if s != [] && IsDigit(s[0]) then
      var m := DigitRun(s[1..]);
      assert s[..1 + m] == [s[0]] + s[1..][..m];
      1 + m
    else 0
  }

  /** The decimal `d.f` as a real number. */
  function DecimalValue(d: string, f: string): real
    requires AllDigits(d) && AllDigits(f)
  {
    DigitsValue(d) as real + DigitsValue(f) as real / Pow10(|f|) as real
  }

  /** The longest unsigned decimal at the start of `t`: digits with an
      optional fraction, or a fraction alone; `None` (NaN) if there is none. */
  function ParseUnsigned(t: string): Option<real>
  {
    var n := DigitRun(t);
    if n < |t| && t[n] == '.' then
      var f := DigitRun(t[n + 1..]);
      if n == 0 && f == 0 then None
      else Some(DecimalValue(t[..n], t[n + 1..][..f]))
    else if n == 0 then None
    else Some(DigitsValue(t[..n]) as real)
  }

  /** An optional sign and the longest unsigned decimal after it. */
  function ParseSigned(t: string): Option<real>
  {
    if t != [] && (t[0] == '+' || t[0] == '-') then
      match ParseUnsigned(t[1..])
      case None => None
      case Some(v) => Some(if t[0] == '-' then -v else v)
    else ParseUnsigned(t)
  }

  /** `parseFloat`: skips leading whitespace, reads an optional sign and the
      longest decimal prefix; `None` stands for NaN. */
  function ParseFloat(s: string): Option<real>
  {
    ParseSigned(TrimStart(s))
  }

  /** The feed's "not available" marker, compared after upper-casing. */
  predicate IsNotAvailable(s: string)
  {
    ToUpper(s) == "N/A"
  }

  /** `parsearPrecio`: 0 for a missing, blank or "N/A" value; otherwise the
      first comma becomes a dot and the leading number is read, NaN giving 0. */
  function ParsePrice(p: Option<string>): (r: real)
    ensures p.None? || Trim(p.value) == [] || IsNotAvailable(p.value) ==> r == 0.0
  {
    if !Truthy(p) || Trim(p.value) == [] || IsNotAvailable(p.value) then 0.0
    else
      match ParseFloat(ReplaceFirst(p.value, ',', '.'))
      case None => 0.0
      case Some(v) => v
  }

  lemma {:induction false} DigitRunOfDigitsThen(d: string, rest: string)
    requires AllDigits(d)
    requires rest == [] || !IsDigit(rest[0])
    ensures DigitRun(d + rest) == |d|
  {
    if d != [] {
      assert (d + rest)[1..] == d[1..] + rest;
      DigitRunOfDigitsThen(d[1..], rest);
    } else {
      assert d + rest == rest;
    }
  }

  /** A value holding a comma is neither missing, blank nor "N/A". */
  lemma {:induction false} CommaIsPresent(s: string, j: nat)
    requires j < |s| && s[j] == ','
    ensures Truthy(Some(s)) && Trim(s) != [] && !IsNotAvailable(s)
  {
    TrimNonBlank(s, j);
    ToUpperAt(s, j);
  }

  lemma {:induction false} ReplaceDecimalComma(p: string, f: string, rest: string)
    requires forall k :: 0 <= k < |p| ==> p[k] != ','
    ensures ReplaceFirst(p + "," + f + rest, ',', '.') == p + "." + f + rest
  {
    var s := p + "," + f + rest;
    var i := IndexOf(s, ',');
    assert i == |p| by {
      assert s[|p|] == ',';
      assert forall k :: 0 <= k < |p| ==> s[k] == p[k];
    }
    var t := ReplaceFirst(s, ',', '.');
    var u := p + "." + f + rest;
    assert |t| == |u|;
    forall k | 0 <= k < |t| ensures t[k] == u[k] {
      if k != |p| {
        assert s[k] == u[k];
      }
    }
  }

  /** `ParseUnsigned` on a digit run that a dot ends, with digits on at
      least one side of the dot. */
  lemma ParseUnsignedAtDot(t: string, n: nat, tail: string)
    requires n == DigitRun(t) && n < |t| && t[n] == '.' && tail == t[n + 1..]
    requires 0 < n || 0 < DigitRun(tail)
    ensures ParseUnsigned(t) == Some(DecimalValue(t[..n], tail[..DigitRun(tail)]))
  {
  }

  lemma {:induction false} ParseUnsignedDecimal(d: string, f: string, rest: string)
    requires AllDigits(d) && AllDigits(f) && (d != [] || f != [])
    requires rest == [] || !IsDigit(rest[0])
    ensures ParseUnsigned(d + "." + f + rest) == Some(DecimalValue(d, f))
  {
    var u := f + rest;
    var t := d + (['.'] + u);
    assert d + "." + f + rest == t;
    DigitRunOfDigitsThen(d, ['.'] + u);
    assert t[..|d|] == d && t[|d|] == '.' && t[|d| + 1..] == u;
    DigitRunOfDigitsThen(f, rest);
    assert u[..|f|] == f;
    ParseUnsignedAtDot(t, |d|, u);
  }

  /** `parseFloat` skips leading whitespace. */
  lemma ParseFloatAfterBlanks(ws: string, t: string)
    requires forall k :: 0 <= k < |ws| ==> IsWhitespace(ws[k])
    requires t == [] || !IsWhitespace(t[0])
    ensures ParseFloat(ws + t) == ParseSigned(t)
  {
    TrimStartAfterBlanks(ws, t);
    TrimStartFixed(t);
  }

  /** A sign in front of an unsigned decimal negates it for '-' only. */
  lemma ParseSignedPrefix(sg: string, u: string, v: real)
    requires sg == "" || sg == "+" || sg == "-"
    requires u != [] && u[0] != '+' && u[0] != '-'
    requires ParseUnsigned(u) == Some(v)
    ensures ParseSigned(sg + u) == Some(if sg == "-" then -v else v)
  {
    if sg == "" {
      assert sg + u == u;
    } else {
      assert (sg + u)[0] == sg[0] && (sg + u)[1..] == u;
    }
  }

  /** The text of a signed decimal splits into the whitespace and the rest. */
  lemma DecimalTextSplits(ws: string, sg: string, d: string, f: string, rest: string)
    ensures ws + sg + d + "." + f + rest == ws + (sg + (d + "." + f + rest))
  {
    var a := ws + sg;
    assert a + d + "." == a + (d + ".");
    assert a + (d + ".") + f == a + (d + "." + f);
    assert a + (d + "." + f) + rest == a + (d + "." + f + rest);
  }

  /** A signed decimal starts with its sign, a digit or the dot. */
  lemma SignedDecimalStart(sg: string, d: string, f: string, rest: string)
    requires sg == "" || sg == "+" || sg == "-"
    requires AllDigits(d)
    ensures var u := d + "." + f + rest;
      && u != [] && u[0] != '+' && u[0] != '-'
      && !IsWhitespace((sg + u)[0])
  {
    var u := d + "." + f + rest;
    assert u[0] == (if d != [] then d[0] else '.');
    assert (sg + u)[0] == (if sg == "" then u[0] else sg[0]);
  }

  /** A sign, then digits with a dot among them and a non-digit after. */
  lemma ParseSignedDecimal(sg: string, d: string, f: string, rest: string)
    requires sg == "" || sg == "+" || sg == "-"
    requires AllDigits(d) && AllDigits(f) && (d != [] || f != [])
    requires rest == [] || !IsDigit(rest[0])
    ensures ParseSigned(sg + (d + "." + f + rest)) ==
      Some(if sg == "-" then -DecimalValue(d, f) else DecimalValue(d, f))
  {
    SignedDecimalStart(sg, d, f, rest);
    ParseUnsignedDecimal(d, f, rest);
    ParseSignedPrefix(sg, d + "." + f + rest, DecimalValue(d, f));
  }

  /** `parseFloat` on optional whitespace, an optional sign, then digits
      with a dot somewhere (before, inside or after them) and a non-digit
      after them: the decimal number, negated for a '-' sign. */
  lemma {:induction false} ParseFloatDecimal(ws: string, sg: string, d: string, f: string, rest: string)
    requires forall k :: 0 <= k < |ws| ==> IsWhitespace(ws[k])
    requires sg == "" || sg == "+" || sg == "-"
    requires AllDigits(d) && AllDigits(f) && (d != [] || f != [])
    requires rest == [] || !IsDigit(rest[0])
    ensures ParseFloat(ws + sg + d + "." + f + rest) ==
      Some(if sg == "-" then -DecimalValue(d, f) else DecimalValue(d, f))
  {
    SignedDecimalStart(sg, d, f, rest);
    ParseFloatAfterBlanks(ws, sg + (d + "." + f + rest));
    ParseSignedDecimal(sg, d, f, rest);
    DecimalTextSplits(ws, sg, d, f, rest);
  }

  /** A comma-decimal number: optional leading whitespace, an optional sign,
      digits `d`, a comma and digits `f` (at least one of `d`, `f` not
      empty), followed by anything that is not a digit (another comma
      included), is read as `d.f`, negated for a '-' sign. So "1,549" is
      1.549, the longitude "-3,703790" is -3.70379, " 1,549" is 1.549, ",5"
      is 0.5 and "1,5,0" is 1.5: only the first comma is a decimal point. */
  lemma {:induction false} ParsePriceDecimalComma(ws: string, sg: string, d: string, f: string, rest: string)
    requires forall k :: 0 <= k < |ws| ==> IsWhitespace(ws[k])
    requires sg == "" || sg == "+" || sg == "-"
    requires AllDigits(d) && AllDigits(f) && (d != [] || f != [])
    requires rest == [] || !IsDigit(rest[0])
    ensures ParsePrice(Some(ws + sg + d + "," + f + rest)) ==
      (if sg == "-" then -DecimalValue(d, f) else DecimalValue(d, f))
  {
    var p := ws + sg + d;
    forall k | 0 <= k < |p| ensures p[k] != ',' {
      if k < |ws| {
        assert p[k] == ws[k];
      } else if k < |ws| + |sg| {
        assert p[k] == sg[k - |ws|];
      } else {
        assert p[k] == d[k - |ws| - |sg|];
      }
    }
    var s := p + "," + f + rest;
    assert ws + sg + d + "," + f + rest == s;
    assert s[|p|] == ',';
    CommaIsPresent(s, |p|);
    ReplaceDecimalComma(p, f, rest);
    assert p + "." + f + rest == ws + sg + d + "." + f + rest;
    ParseFloatDecimal(ws, sg, d, f, rest);
  }

  /** The example from the feed: "1,549" is read as 1.549. */
  lemma DecimalExample()
    ensures DecimalValue("1", "549") == 1.549
  {
    assert DigitsValue("5") == 5 by { assert "5"[..0] == ""; }
    assert DigitsValue("54") == 54 by { assert "54"[..1] == "5"; }
    assert DigitsValue("549") == 549 by { assert "549"[..2] == "54"; }
    assert DigitsValue("1") == 1 by { assert "1"[..0] == ""; }
    assert Pow10(3) == 1000 by {
      assert Pow10(1) == 10;
      assert Pow10(2) == 100;
    }
  }

  /** The feed's own example: "1,549" is read as 1.549. */
  lemma ParsePriceExample(p: string)
    requires p == "1,549"
    ensures ParsePrice(Some(p)) == 1.549
  {
    var d: string :| d == "1";
    var f: string :| f == "549";
    assert AllDigits(d) && AllDigits(f);
    assert p == "" + "" + d + "," + f + "";
    ParsePriceDecimalComma("", "", d, f, "");
    DecimalExample();
  }

  /** The digits of a longitude from the feed: 3,703790 is 3.70379. */
  lemma LongitudeDigits()
    ensures DecimalValue("3", "703790") == 3.70379
  {
    assert DigitsValue("3") == 3 by { assert "3"[..0] == ""; }
    assert DigitsValue("7") == 7 by { assert "7"[..0] == ""; }
    assert DigitsValue("70") == 70 by { assert "70"[..1] == "7"; }
    assert DigitsValue("703") == 703 by { assert "703"[..2] == "70"; }
    assert DigitsValue("7037") == 7037 by { assert "7037"[..3] == "703"; }
    assert DigitsValue("70379") == 70379 by { assert "70379"[..4] == "7037"; }
    assert DigitsValue("703790") == 703790 by { assert "703790"[..5] == "70379"; }
    assert Pow10(6) == 1000000 by {
      assert Pow10(1) == 10;
      assert Pow10(2) == 100;
      assert Pow10(3) == 1000;
      assert Pow10(4) == 10000;
      assert Pow10(5) == 100000;
    }
  }

  /** A longitude west of Greenwich, as most of the feed's stations have:
      "-3,703790" is read as -3.70379. */
  lemma ParseLongitudeExample(p: string)
    requires p == "-3,703790"
    ensures ParsePrice(Some(p)) == -3.70379
  {
    var d: string :| d == "3";
    var f: string :| f == "703790";
    assert AllDigits(d) && AllDigits(f);
    assert p == "" + "-" + d + "," + f + "";
    ParsePriceDecimalComma("", "-", d, f, "");
    LongitudeDigits();
  }

  /** Without a numeric prefix (NaN) the price is 0, whatever follows. */
  lemma ParsePriceNoNumber(p: string)
    requires ParseFloat(ReplaceFirst(p, ',', '.')).None?
    ensures ParsePrice(Some(p)) == 0.0
  {
  }

  // ---------------------------------------------------------------------
  // extraerCodigoPostal: the regular expression /\b\d{5}\b/

  /** The characters of a JavaScript `\w`: ASCII letters, digits and `_`. */
  predicate IsWordChar(c: char)
  {
    ('a' <= c <= 'z') || ('A' <= c <= 'Z') || IsDigit(c) || c == '_'
  }

  /** `/\b\d{5}\b/` matches at position `i` of `s`. */
  predicate CodeAt(s: string, i: nat)
  {
    && i + 5 <= |s|
    && AllDigits(s[i..i + 5])
    && (i == 0 || !IsWordChar(s[i - 1]))
    && (i + 5 == |s| || !IsWordChar(s[i + 5]))
  }

  /** A postal code as the model produces it: five ASCII digits. */
  predicate IsPostalCode(r: string)
  {
    |r| == 5 && AllDigits(r)
  }

  /** The leftmost match of the postal-code pattern at or after `from`. */
  function FindCode(s: string, from: nat): (r: Option<nat>)
    decreases |s| - from
    ensures r.Some? ==> from <= r.value && CodeAt(s, r.value)
    ensures r.Some? ==> forall k :: from <= k < r.value ==> !CodeAt(s, k)
    ensures r.None? ==> forall k :: from <= k ==> !CodeAt(s, k)
  {
    if from + 5 > |s| then None
    else if CodeAt(s, from) then Some(from)
    else FindCode(s, from + 1)
  }

  /** `cpMatch[0]` for the first match in `s`, if any. */
  function MatchCode(s: string): (r: Option<string>)
    ensures r.Some? ==> IsPostalCode(r.value)
  {
    match FindCode(s, 0)
    case None => None
    case Some(i) => Some(s[i..i + 5])
  }

  /** `extraerCodigoPostal`: the first code in the address, else the first in
      the municipality, else ''. An empty address always gives ''. */
  function ExtractPostalCode(direccion: string, municipio: string): (r: string)
    ensures r == [] || IsPostalCode(r)
    ensures direccion == [] ==> r == []
    ensures (direccion != [] && exists i: nat :: CodeAt(direccion, i)) ==>
      (exists i: nat :: CodeAt(direccion, i) && r == direccion[i..i + 5]
        && forall k :: 0 <= k < i ==> !CodeAt(direccion, k))
    ensures (direccion != [] && (forall i: nat :: !CodeAt(direccion, i))
      && exists i: nat :: CodeAt(municipio, i)) ==>
      (exists i: nat :: CodeAt(municipio, i) && r == municipio[i..i + 5]
        && forall k :: 0 <= k < i ==> !CodeAt(municipio, k))
    ensures ((forall i: nat :: !CodeAt(direccion, i)) && (forall i: nat :: !CodeAt(municipio, i))) ==>
      r == []
  {
    if direccion == [] then []
    else match MatchCode(direccion)
      case Some(c) => c
      case None =>
        if municipio == [] then []
        else match MatchCode(municipio)
          case Some(c) => c
          case None => []
  }

  /** The pattern never matches inside a longer digit run: the digits just
      before and after a match are absent, so a six-digit run yields no code. */
  lemma CodeIsIsolated(s: string, i: nat)
    requires CodeAt(s, i)
    ensures i == 0 || !IsDigit(s[i - 1])
    ensures i + 5 == |s| || !IsDigit(s[i + 5])
  {
  }

  lemma {:induction false} NoCodeInDigitRun(s: string)
    requires AllDigits(s) && |s| != 5
    ensures forall i: nat :: !CodeAt(s, i)
  {
  }

  /** A six-digit number in the address and the municipality is no code. */
  lemma SixDigitsNoCode()
    ensures ExtractPostalCode("123456", "280012") == ""
  {
    assert AllDigits("123456") && AllDigits("280012");
    NoCodeInDigitRun("123456");
    NoCodeInDigitRun("280012");
  }

  // ---------------------------------------------------------------------
  // normalizarHorario

  /** `normalizarHorario`: '' when missing; '24H' when the trimmed text,
      upper-cased, contains "24H" or is "1"; otherwise the trimmed text. */
  function NormalizeHours(h: Option<string>): (r: string)
    ensures !Truthy(h) ==> r == []
    ensures Truthy(h) ==> r == "24H" || r == Trim(h.value)
    ensures Truthy(h) ==>
      (r == "24H" <==> Includes(ToUpper(Trim(h.value)), "24H") || Trim(h.value) == "1")
  {
    if !Truthy(h) then []
    else
      var t := Trim(h.value);
      if Includes(ToUpper(t), "24H") || t == "1" then "24H"
      else
        HoursMarkerIncludes();
        t
  }

  lemma HoursMarkerIncludes()
    ensures Includes(ToUpper("24H"), "24H")
  {
    assert ToUpper("24H") == "24H";
    assert OccursAt("24H", "24H", 0);
  }

  lemma HoursOfMarker(r: string)
    requires r == "24H"
    ensures NormalizeHours(Some(r)) == r
  {
    assert r[0] == '2' && r[|r| - 1] == 'H';
    TrimFixed(r);
    HoursMarkerIncludes();
  }

  /** Text whose trimmed form neither contains the marker nor is "1" comes
      back trimmed, and that trimmed form is kept as it is. */
  lemma HoursOfPlain(h: string)
    requires Trim(h) != []
    requires !Includes(ToUpper(Trim(h)), "24H") && Trim(h) != "1"
    ensures NormalizeHours(Some(h)) == Trim(h)
    ensures NormalizeHours(Some(Trim(h))) == Trim(h)
  {
    TrimIdempotent(h);
  }

  /** Normalising the hours twice gives the same as normalising once. */
  lemma {:induction false} NormalizeHoursIdempotent(h: Option<string>)
    ensures NormalizeHours(Some(NormalizeHours(h))) == NormalizeHours(h)
  {
    var r := NormalizeHours(h);
    if Truthy(h) {
      var t := Trim(h.value);
      if Includes(ToUpper(t), "24H") || t == "1" {
        assert r == "24H";
        HoursOfMarker(r);
      } else if t != [] {
        assert r == t;
        HoursOfPlain(h.value);
      }
    }
  }

  // ---------------------------------------------------------------------
  // procesarDatos

  /** One entry of `ListaEESSPrecio`, with the feed's own field names;
      `None` is an absent key. */
  datatype FeedItem = FeedItem(
    ideess: Option<string>,
    rotulo: Option<string>,
    direccion: Option<string>,
    municipio: Option<string>,
    provincia: Option<string>,
    latitud: Option<string>,
    longitud: Option<string>,
    horario: Option<string>,
    precioGasolina95E5: Option<string>,
    precioGasolina95E10: Option<string>,
    precioGasolina98E5: Option<string>,
    precioGasoleoA: Option<string>,
    precioGasoleoPremium: Option<string>,
    precioGlp: Option<string>,
    precioBiodiesel: Option<string>,
    precioBioetanol: Option<string>,
    precioEsterMetilico: Option<string>,
    precioHidrogeno: Option<string>)

  /** The response body; `listaEESSPrecio` is `None` when the key is absent. */
  datatype Feed = Feed(listaEESSPrecio: Option<seq<FeedItem>>)

  /** A normalised station, the columns of the `gasolineras` table in the
      order the INSERT lists them. */
  datatype Station = Station(
    id: string,
    rotulo: string,
    direccion: string,
    municipio: string,
    provincia: string,
    codPostal: string,
    latitud: real,
    longitud: real,
    horario: string,
    gasolina95: real,
    gasolina95E10: real,
    gasolina98: real,
    gasoleoA: real,
    gasoleoPremium: real,
    glp: real,
    biodiesel: real,
    bioetanol: real,
    esterMetilico: real,
    hidrogeno: real)

  /** `x?.toString() || fallback` */
  function OrElse(x: Option<string>, fallback: string): string
  {
    if Truthy(x) then x.value else fallback
  }

  /** The `map` step of `procesarDatos`. */
  function NormalizeItem(item: FeedItem): Station
  {
    var direccion := OrElse(item.direccion, "");
    var municipio := OrElse(item.municipio, "");
    Station(
      OrElse(item.ideess, ""),
      OrElse(item.rotulo, "Sin Nombre"),
      direccion,
      municipio,
      OrElse(item.provincia, ""),
      ExtractPostalCode(direccion, municipio),
      ParsePrice(item.latitud),
      ParsePrice(item.longitud),
      NormalizeHours(item.horario),
      ParsePrice(item.precioGasolina95E5),
      ParsePrice(item.precioGasolina95E10),
      ParsePrice(item.precioGasolina98E5),
      ParsePrice(item.precioGasoleoA),
      ParsePrice(item.precioGasoleoPremium),
      ParsePrice(item.precioGlp),
      ParsePrice(item.precioBiodiesel),
      ParsePrice(item.precioBioetanol),
      ParsePrice(item.precioEsterMetilico),
      ParsePrice(item.precioHidrogeno))
  }

  /** The `filter` step: an id and two nonzero coordinates. */
  predicate Keep(s: Station)
  {
    s.id != [] && s.latitud != 0.0 && s.longitud != 0.0
  }

  /** `map(NormalizeItem).filter(Keep)` over a list of feed items. */
  function ProcessItems(items: seq<FeedItem>): (r: seq<Station>)
    ensures |r| <= |items|
    ensures forall s :: s in r ==> Keep(s)
  {
    Seqs.MapFilter(NormalizeItem, Keep, items)
  }

  /** `procesarDatos`: an absent `ListaEESSPrecio` is the empty list. */
  function ProcessFeed(feed: Feed): (r: seq<Station>)
    ensures feed.listaEESSPrecio.None? ==> r == []
    ensures feed.listaEESSPrecio.Some? ==> |r| <= |feed.listaEESSPrecio.value|
  {
    ProcessItems(if feed.listaEESSPrecio.Some? then feed.listaEESSPrecio.value else [])
  }

  /** A station is processed from a feed exactly when it normalises from one
      of the listed items and passes the filter. */
  lemma ProcessFeedMembers(feed: Feed, s: Station)
    requires feed.listaEESSPrecio.Some?
    ensures s in ProcessFeed(feed) <==>
      Keep(s) && exists k :: 0 <= k < |feed.listaEESSPrecio.value|
                             && NormalizeItem(feed.listaEESSPrecio.value[k]) == s
  {
    ProcessItemsMembers(feed.listaEESSPrecio.value, s);
  }

  /** Processing distributes over concatenation, so the output keeps the
      order of the input. */
  lemma ProcessItemsAppend(a: seq<FeedItem>, b: seq<FeedItem>)
    ensures ProcessItems(a + b) == ProcessItems(a) + ProcessItems(b)
  {
    Seqs.MapFilterAppend(NormalizeItem, Keep, a, b);
  }

  /** A station is in the output exactly when it is the normalisation of
      some input item and passes the filter. */
  lemma ProcessItemsMembers(items: seq<FeedItem>, s: Station)
    ensures s in ProcessItems(items) <==>
      Keep(s) && exists k :: 0 <= k < |items| && NormalizeItem(items[k]) == s
  {
    Seqs.MapFilterMembers(NormalizeItem, Keep, items, s);
  }

  /** An item whose latitude or longitude parses to zero is never kept. */
  lemma ZeroCoordinateExcluded(item: FeedItem)
    requires ParsePrice(item.latitud) == 0.0 || ParsePrice(item.longitud) == 0.0
    ensures NormalizeItem(item) !in ProcessItems([item])
  {
  }
}
