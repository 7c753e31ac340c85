/**
 * The functional registry: the command-line parsers that turn a token into
 * a T-functional or a P-functional, and the check that a run's P-functionals
 * are all Hermite (the orthonormal regime) or none are.
 */
module Registry {
  import opened Wrappers

  /** The fixed catalog of T-functionals, applied along each projection line. */
  datatype TFunctional = Radon | T1 | T2 | T3 | T4 | T5

  /** The fixed catalog of P-functionals; only Hermite carries a parameter, its order. */
  datatype PFunctional = P1 | P2 | P3 | Hermite(order: nat)

  /** A resolved T-functional together with the display name stored beside it. */
  datatype TFunctionalWrapper = TFunctionalWrapper(name: string, functional: TFunctional)

  /**
   * A resolved P-functional with its display name and the alignment center
   * argument, which parsing leaves unset and the orthonormal corrector fills in.
   */
  datatype PFunctionalWrapper = PFunctionalWrapper(name: string, functional: PFunctional, center: Option<nat>)

  /** Each validation failure the parsers and the regime check can raise. */
  datatype OptionError =
    | UnknownTFunctional
    | MissingHermiteOrder
    | UnparseableHermiteOrder
    | UnknownPFunctional
    | MixedRegimes

  /** The human-readable cause attached to each validation failure. */
  function Message(e: OptionError): (message: string) {
    match e
    case UnknownTFunctional => "Unknown T-functional"
    case MissingHermiteOrder => "Missing order parameter for Hermite P-functional"
    case UnparseableHermiteOrder => "Unparseable order parameter for Hermite P-functional"
    case UnknownPFunctional => "Unknown P-functional"
    case MixedRegimes => "Cannot mix regular and orthonormal P-functionals"
  }

  /** Every failure is reported with a message of its own. */
  lemma MessagesDistinct(e1: OptionError, e2: OptionError)
    ensures Message(e1) == Message(e2) ==> e1 == e2
  {
    // The third character tells all messages apart but the two "Unknown"
    // ones, which differ in the ninth.
    if Message(e1) == Message(e2) {
      assert Message(e1)[2] == Message(e2)[2] && Message(e1)[8] == Message(e2)[8];
    }
  }

  //
  // Decimal digits
  //

  predicate IsDigit(c: char) {
    '0' <= c <= '9'
  }

  predicate AllDigits(s: string) {
    forall i :: 0 <= i < |s| ==> IsDigit(s[i])
  }

  /** The value of a string of decimal digits, most significant first. */
  function DecimalValue(s: string): (value: nat)
    requires AllDigits(s)
  {
    if |s| == 0 then 0
    else DecimalValue(s[..|s| - 1]) * 10 + (s[|s| - 1] as int - '0' as int)
  }

  /** The shortest decimal representation of `n`. */
  function Decimal(n: nat): (s: string)
    ensures |s| > 0
  {
    if n < 10 then [('0' as int + n) as char]
    else Decimal(n / 10) + [('0' as int + n % 10) as char]
  }

  /**
   * The conversion of a Hermite order suffix to an unsigned integer: a
   * non-empty digit string is read as a decimal number, anything else is
   * rejected.
   */
  function ParseUnsigned(s: string): (r: Option<nat>) {
    if |s| > 0 && AllDigits(s) then Some(DecimalValue(s)) else None
  }

  /** Reading back the decimal representation of a number gives the number. */
  lemma {:induction false} DecimalRoundTrip(n: nat)
    ensures AllDigits(Decimal(n))
    ensures DecimalValue(Decimal(n)) == n
  {
    if n >= 10 {
      DecimalRoundTrip(n / 10);
      var s := Decimal(n);
      assert s[..|s| - 1] == Decimal(n / 10);
    }
  }

  //
  // T-functional tokens
  //

  /**
   * Parses a T-functional token: the token gets `"T"` prepended, and the
   * names `"T0"` to `"T5"` select Radon and T1 to T5; every other name is
   * rejected as an unknown T-functional.
   */
  function ParseT(token: string): (r: Result<TFunctionalWrapper, OptionError>) {
    var name := "T" + token;
    if name == "T0" then Ok(TFunctionalWrapper(name, Radon))
    else if name == "T1" then Ok(TFunctionalWrapper(name, T1))
    else if name == "T2" then Ok(TFunctionalWrapper(name, T2))
    else if name == "T3" then Ok(TFunctionalWrapper(name, T3))
    else if name == "T4" then Ok(TFunctionalWrapper(name, T4))
    else if name == "T5" then Ok(TFunctionalWrapper(name, T5))
    else Err(UnknownTFunctional)
  }

  /** The command-line token that selects each T-functional. */
  function TToken(f: TFunctional): (token: string)
    ensures |token| == 1 && '0' <= token[0] <= '5'
  {
    match f
    case Radon => "0"
    case T1 => "1"
    case T2 => "2"
    case T3 => "3"
    case T4 => "4"
    case T5 => "5"
  }

  /** Every T-functional is selected by its token, and stored under the name `"T"` + token. */
  lemma ParseTRoundTrip(f: TFunctional)
    ensures ParseT(TToken(f)) == Ok(TFunctionalWrapper("T" + TToken(f), f))
  {
    var token := TToken(f);
    assert "T" + token == ['T', token[0]];
  }

  /**
   * Exactly the single digits `"0"` to `"5"` are accepted; a successful
   * parse stores `"T"` + token and selects the functional of that token;
   * every other token fails as an unknown T-functional.
   */
  lemma ParseTAccepts(token: string)
    ensures ParseT(token).Ok? <==> |token| == 1 && '0' <= token[0] <= '5'
    ensures ParseT(token).Ok? ==>
      ParseT(token).value.name == "T" + token && TToken(ParseT(token).value.functional) == token
    ensures ParseT(token).Err? ==> ParseT(token).error == UnknownTFunctional
  {
    var name := "T" + token;
    assert name[1..] == token;
    if |token| == 1 && '0' <= token[0] <= '5' {
      assert name == ['T', token[0]];
    }
  }

  /** A token already carrying the `T` prefix is prefixed again and rejected. */
  lemma ParseTRejectsPrefixed(f: TFunctional)
    ensures ParseT("T" + TToken(f)) == Err(UnknownTFunctional)
  {
    ParseTAccepts("T" + TToken(f));
  }

  //
  // P-functional tokens
  //

  /**
   * The name a P-token is matched under: the token itself, with `"P"`
   * prepended when it starts with a digit; it never starts with a digit.
   */
  function PrefixedName(token: string): (name: string)
    ensures name == token || name == "P" + token
    ensures |name| > 0 ==> !IsDigit(name[0])
    ensures |token| > 0 && IsDigit(token[0]) <==> name == "P" + token && |token| > 0
  {
    if |token| > 0 && IsDigit(token[0]) then "P" + token else token
  }

  /**
   * Parses a P-functional token. A token whose first character is a digit
   * gets `"P"` prepended; `"P1"`, `"P2"` and `"P3"` select P1 to P3; a name
   * starting with `'H'` selects Hermite, whose order is the decimal value of
   * the rest of the name (missing when the name is `"H"` alone, unparseable
   * when the rest is not a digit string); every other name is rejected as an
   * unknown P-functional. An empty token has no first character: its first
   * character reads as NUL, which is neither a digit nor `'H'`.
   */
  function ParseP(token: string): (r: Result<PFunctionalWrapper, OptionError>) {
    var name := PrefixedName(token);
    if name == "P1" then Ok(PFunctionalWrapper(name, P1, None))
    else if name == "P2" then Ok(PFunctionalWrapper(name, P2, None))
    else if name == "P3" then Ok(PFunctionalWrapper(name, P3, None))
    else if |name| > 0 && name[0] == 'H' then
      if |name| < 2 then Err(MissingHermiteOrder)
      else match ParseUnsigned(name[1..])
        case Some(order) => Ok(PFunctionalWrapper(name, Hermite(order), None))
        case None => Err(UnparseableHermiteOrder)
    else Err(UnknownPFunctional)
  }

  /** The canonical name of each P-functional: `"P1"`..`"P3"`, or `"H"` and the decimal order. */
  function PName(f: PFunctional): (name: string) {
    match f
    case P1 => "P1"
    case P2 => "P2"
    case P3 => "P3"
    case Hermite(order) => "H" + Decimal(order)
  }

  /** Every P-functional, Hermite of any order included, is selected by its canonical name. */
  lemma ParsePRoundTrip(f: PFunctional)
    ensures ParseP(PName(f)) == Ok(PFunctionalWrapper(PName(f), f, None))
  {
    if f.Hermite? {
      var name := PName(f);
      DecimalRoundTrip(f.order);
      assert name[0] == 'H';
      assert name[1..] == Decimal(f.order);
    }
  }

  /** The digit short forms `"1"`, `"2"`, `"3"` parse exactly as `"P1"`, `"P2"`, `"P3"`. */
  lemma ParsePShortForm(d: char)
    requires '1' <= d <= '3'
    ensures ParseP([d]) == ParseP(['P', d])
    ensures ParseP([d]).Ok? && ParseP([d]).value.name == ['P', d]
  {
    assert "P" + [d] == ['P', d];
  }

  /** The tokens for P1 to P3: the names themselves and their digit short forms. */
  predicate IsRegularPToken(token: string) {
    token in {"1", "2", "3", "P1", "P2", "P3"}
  }

  /**
   * The accept and reject sets of the P-parser, by failure: a token is
   * accepted exactly when it is one of the six P1..P3 tokens or `'H'`
   * followed by a non-empty digit string (whose value is then the order);
   * `"H"` alone misses its order; `'H'` followed by anything else is
   * unparseable; everything else is unknown. An accepted token is stored
   * under its prefixed name (so `"H03"` stays `"H03"`) with no center.
   */
  lemma ParsePAccepts(token: string)
    ensures ParseP(token).Ok? <==>
      IsRegularPToken(token) || (|token| >= 2 && token[0] == 'H' && AllDigits(token[1..]))
    ensures ParseP(token).Ok? ==>
      ParseP(token).value.name == PrefixedName(token) && ParseP(token).value.center == None
    ensures ParseP(token).Ok? && token[0] == 'H' ==>
      ParseP(token).value.functional == Hermite(DecimalValue(token[1..]))
    ensures ParseP(token) == Err(MissingHermiteOrder) <==> token == "H"
    ensures ParseP(token) == Err(UnparseableHermiteOrder) <==>
      |token| >= 2 && token[0] == 'H' && !AllDigits(token[1..])
    ensures ParseP(token) == Err(UnknownPFunctional) <==>
      !IsRegularPToken(token) && (|token| == 0 || token[0] != 'H')
  {
    var name := PrefixedName(token);
    if |token| > 0 && IsDigit(token[0]) {
      assert name[1..] == token;
      assert name[0] == 'P';
      if |token| == 1 {
        assert name == ['P', token[0]];
      }
      assert name in {"P1", "P2", "P3"} <==> token in {"1", "2", "3"};
    } else {
      assert name == token;
      if |token| >= 2 && token[0] == 'H' {
        assert token != "P1" && token != "P2" && token != "P3";
      }
    }
  }

  /**
   * Worked examples: `"H3"` is Hermite of order 3, `"3"` is P3 stored as
   * `"P3"`, `"H"` misses its order, `"Hx"` has an unparseable order, and
   * `"4"` (read as `"P4"`) and the lower-case `"h3"` are unknown.
   */
  lemma ParsePExamples()
    ensures ParseP("H3") == Ok(PFunctionalWrapper("H3", Hermite(3), None))
    ensures ParseP("3") == Ok(PFunctionalWrapper("P3", P3, None))
    ensures ParseP("H") == Err(MissingHermiteOrder)
    ensures ParseP("Hx") == Err(UnparseableHermiteOrder)
    ensures ParseP("4") == Err(UnknownPFunctional)
    ensures ParseP("h3") == Err(UnknownPFunctional)
  {
    ParsePAccepts("H3");
    ParsePAccepts("3");
    ParsePAccepts("Hx");
    ParsePAccepts("4");
    ParsePAccepts("h3");
  }

  /** A leading zero in the Hermite order is accepted and kept in the stored name. */
  lemma ParsePLeadingZero()
    ensures ParseP("H03") == Ok(PFunctionalWrapper("H03", Hermite(3), None))
  {
    assert PrefixedName("H03") == "H03";
    assert "H03"[1..] == "03" && AllDigits("03");
    assert "03"[..1] == "0";
    assert DecimalValue("03") == 3;
  }

  //
  // The regime check
  //

  /** The number of Hermite entries in a list of P-functionals. */
  function HermiteCount(ps: seq<PFunctionalWrapper>): (count: nat) {
    if ps == [] then 0
    else HermiteCount(ps[..|ps| - 1]) + (if ps[|ps| - 1].functional.Hermite? then 1 else 0)
  }

  /** The count is zero exactly when no entry is Hermite. */
  lemma {:induction false} HermiteCountZero(ps: seq<PFunctionalWrapper>)
    ensures HermiteCount(ps) == 0 <==> forall i :: 0 <= i < |ps| ==> !ps[i].functional.Hermite?
  {
    if ps != [] {
      HermiteCountZero(ps[..|ps| - 1]);
    }
  }

  /** The count equals the length exactly when every entry is Hermite. */
  lemma {:induction false} HermiteCountAll(ps: seq<PFunctionalWrapper>)
    ensures HermiteCount(ps) <= |ps|
    ensures HermiteCount(ps) == |ps| <==> forall i :: 0 <= i < |ps| ==> ps[i].functional.Hermite?
  {
    if ps != [] {
      HermiteCountAll(ps[..|ps| - 1]);
    }
  }

  /**
   * Decides the run's regime by counting the Hermite entries: no Hermite
   * entry (an empty list included) is the regular regime, all Hermite is
   * the orthonormal regime, and a mix is rejected.
   */
  method CheckRegime(pfunctionals: seq<PFunctionalWrapper>) returns (r: Result<bool, OptionError>)
    ensures r == Ok(false) <==> forall i :: 0 <= i < |pfunctionals| ==> !pfunctionals[i].functional.Hermite?
    ensures r == Ok(true) <==>
      |pfunctionals| > 0 && forall i :: 0 <= i < |pfunctionals| ==> pfunctionals[i].functional.Hermite?
    ensures r.Err? ==> r.error == MixedRegimes
  {
    var orthonormalCount := 0;
    for p := 0 to |pfunctionals|
      invariant orthonormalCount == HermiteCount(pfunctionals[..p])
    {
      assert pfunctionals[..p + 1][..p] == pfunctionals[..p];
      if pfunctionals[p].functional.Hermite? {
        orthonormalCount := orthonormalCount + 1;
      }
    }
    assert pfunctionals[..|pfunctionals|] == pfunctionals;
    HermiteCountZero(pfunctionals);
    HermiteCountAll(pfunctionals);
    if orthonormalCount == 0 {
      r := Ok(false);
    } else if orthonormalCount == |pfunctionals| {
      r := Ok(true);
    } else {
      r := Err(MixedRegimes);
    }
  }
}
