/**
 * `detectarProveedorMejorado` of scanner.js: a fixed-priority provider
 * classifier over the parsed GS1 fields and the raw scanned text.
 */
module ProviderClassifier {
  import opened Optional
  import opened JsString
  import opened Gs1Dates
  import opened Gs1Tokenizer

  /** The two regular expressions of the provider table, both with the `i` flag. */
  datatype Pattern =
    | LotB      // /^B\d{5,}$/i
    | SerialSai // /^SAI-[A-Z0-9]{4,}$/i

  /** A letter or digit under the `i` flag: `[A-Z0-9]` matches both cases. */
  predicate IsAlnumIgnoringCase(c: char) {
    IsDigit(c) || 'A' <= UpperChar(c) <= 'Z'
  }

  /** Whether the whole of `s` matches the pattern (both are anchored at `^` and `$`). */
  predicate Matches(p: Pattern, s: string) {
    match p
    case LotB =>
      |s| >= 6 && UpperChar(s[0]) == 'B' && forall k :: 1 <= k < |s| ==> IsDigit(s[k])
    case SerialSai =>
      |s| >= 8 && Upper(s[..4]) == "SAI-" && forall k :: 4 <= k < |s| ==> IsAlnumIgnoringCase(s[k])
  }

  /** One entry of the provider table; an absent property is `None` or the empty string. */
  datatype Provider = Provider(
    name: string,
    gtinPrefix: string,
    lotPattern: Option<Pattern>,
    serialPattern: Option<Pattern>,
    text: string)

  /** The table, in declaration order, which is also the order the loops visit it in. */
  const Providers: seq<Provider> := [
    Provider("BIOPROTECE", "8411111", Some(LotB), None, "BIOPROTECE"),
    Provider("SAI", "8422222", None, Some(SerialSai), "SAI")
  ]

  /** The four checks, in the order they are made. */
  datatype Rule = ByGtin | ByLot | BySerial | ByText

  const Rules: seq<Rule> := [ByGtin, ByLot, BySerial, ByText]

  const Unidentified: string := "No identificado"

  /**
   * A field the checks look at: a truthy, that is non-empty, string value.
   * The AIs 01, 10 and 21 only ever hold strings.
   */
  function Field(parsed: map<string, Value>, key: string): (r: Option<string>)
    ensures r.Some? <==> key in parsed && parsed[key].Str? && parsed[key].text != ""
    ensures r.Some? ==> r.value == parsed[key].text
  {
    if key in parsed && parsed[key].Str? && parsed[key].text != "" then Some(parsed[key].text) else None
  }

  /**
   * On the parser's output a code's entry is always text, so `Field` is
   * `None` only for a code that is absent or read as the empty string.
   */
  lemma FieldOfParsedCode(data: string, clock: Clock, key: string)
    requires AllDigits(key)
    ensures var parsed := ParseGS1Data(data, clock);
      && (key in parsed ==> parsed[key].Str?)
      && (Field(parsed, key) == None <==> key !in parsed || parsed[key] == Str(""))
  {
    ParsedCodeIsText(data, clock, key);
  }

  /** Whether provider `p` is recognised by `rule`. */
  predicate Hits(p: Provider, rule: Rule, raw: string, parsed: map<string, Value>) {
    match rule
    case ByGtin =>
      Field(parsed, "01").Some? && p.gtinPrefix != "" && StartsWith(Field(parsed, "01").value, p.gtinPrefix)
    case ByLot =>
      Field(parsed, "10").Some? && p.lotPattern.Some? && Matches(p.lotPattern.value, Field(parsed, "10").value)
    case BySerial =>
      Field(parsed, "21").Some? && p.serialPattern.Some? && Matches(p.serialPattern.value, Field(parsed, "21").value)
    case ByText =>
      p.text != "" && Includes(Upper(raw), Upper(p.text))
  }

  /** The checks of one scan, as a function of provider and rule. */
  function Checks(raw: string, parsed: map<string, Value>): (Provider, Rule) -> bool {
    (p: Provider, rule: Rule) => Hits(p, rule, raw, parsed)
  }

  /** The first provider of `provs` that `rule` recognises. */
  function FirstProvider(provs: seq<Provider>, rule: Rule, check: (Provider, Rule) -> bool): (r: Option<nat>)
    ensures r.Some? ==> r.value < |provs| && check(provs[r.value], rule)
    ensures r.Some? ==> forall j :: 0 <= j < r.value ==> !check(provs[j], rule)
    ensures r.None? <==> forall j :: 0 <= j < |provs| ==> !check(provs[j], rule)
  {
    if |provs| == 0 then None
    else if check(provs[0], rule) then Some(0)
    else
      match FirstProvider(provs[1..], rule, check)
      case None => None
      case Some(k) => Some(k + 1)
  }

  /** No provider is recognised by any of `rules`. */
  predicate NoHit(rules: seq<Rule>, provs: seq<Provider>, check: (Provider, Rule) -> bool) {
    forall s, j :: 0 <= s < |rules| && 0 <= j < |provs| ==> !check(provs[j], rules[s])
  }

  /**
   * The first (rule, provider) pair that hits, rules taking priority over
   * providers: the rule index and the provider index.
   */
  function FirstHit(rules: seq<Rule>, provs: seq<Provider>, check: (Provider, Rule) -> bool): (r: Option<(nat, nat)>)
    ensures r.Some? ==>
      && r.value.0 < |rules| && r.value.1 < |provs|
      && check(provs[r.value.1], rules[r.value.0])
      && NoHit(rules[..r.value.0], provs, check)
      && (forall j :: 0 <= j < r.value.1 ==> !check(provs[j], rules[r.value.0]))
    ensures r.None? <==> NoHit(rules, provs, check)
  {
    if |rules| == 0 then None
    else
      match FirstProvider(provs, rules[0], check)
      case Some(j) => Some((0, j))
      case None =>
        match FirstHit(rules[1..], provs, check)
        case None => None
        case Some(h) =>
          assert rules[1..][..h.0] == rules[1..h.0 + 1];
          Some((h.0 + 1, h.1))
  }

  /** The earliest hit, in rule-then-provider order, is the one `FirstHit` finds. */
  lemma FirstHitUnique(rules: seq<Rule>, provs: seq<Provider>, check: (Provider, Rule) -> bool, s: nat, j: nat)
    requires s < |rules| && j < |provs|
    requires check(provs[j], rules[s])
    requires NoHit(rules[..s], provs, check)
    requires forall k :: 0 <= k < j ==> !check(provs[k], rules[s])
    ensures FirstHit(rules, provs, check) == Some((s, j))
  {
    var h := FirstHit(rules, provs, check).value;
    forall t, k | 0 <= t < h.0 && 0 <= k < |provs|
      ensures !check(provs[k], rules[t])
    {
      assert rules[..h.0][t] == rules[t];
    }
    forall t, k | 0 <= t < s && 0 <= k < |provs|
      ensures !check(provs[k], rules[t])
    {
      assert rules[..s][t] == rules[t];
    }
  }

  function RuleWord(rule: Rule): string {
    match rule
    case ByGtin => "GTIN"
    case ByLot => "Lote"
    case BySerial => "Serie"
    case ByText => "texto"
  }

  /** `${prov} (por <rule>)`. */
  function Label(p: Provider, rule: Rule): string {
    p.name + " (por " + RuleWord(rule) + ")"
  }

  /**
   * The provider label for a scan: the first check, in the order GTIN
   * prefix, lot pattern, serial pattern, raw text, that recognises a
   * provider names it; otherwise "No identificado".
   */
  function Detect(raw: string, parsed: map<string, Value>): (r: string)
    ensures r == Unidentified <==> NoHit(Rules, Providers, Checks(raw, parsed))
    ensures r != Unidentified ==>
      exists s, j :: 0 <= s < |Rules| && 0 <= j < |Providers|
        && r == Label(Providers[j], Rules[s]) && Hits(Providers[j], Rules[s], raw, parsed)
  {
    match FirstHit(Rules, Providers, Checks(raw, parsed))
    case None => Unidentified
    case Some(h) =>
      LabelIsIdentified(h.0, h.1);
      Label(Providers[h.1], Rules[h.0])
  }

  lemma LabelIsIdentified(s: nat, j: nat)
    requires s < |Rules| && j < |Providers|
    ensures Label(Providers[j], Rules[s]) != Unidentified
  {
    assert Label(Providers[j], Rules[s])[0] != Unidentified[0];
  }

  /** A label names its provider and its rule unambiguously. */
  lemma LabelsDistinct(s1: nat, j1: nat, s2: nat, j2: nat)
    requires s1 < |Rules| && j1 < |Providers| && s2 < |Rules| && j2 < |Providers|
    requires Label(Providers[j1], Rules[s1]) == Label(Providers[j2], Rules[s2])
    ensures s1 == s2 && j1 == j2
  {
    var a, b := Label(Providers[j1], Rules[s1]), Label(Providers[j2], Rules[s2]);
    assert a[1] == b[1];
    assert j1 == j2;
    var n := |Providers[j1].name| + 5;
    assert a[n] == b[n] && a[n + 1] == b[n + 1];
  }

  /**
   * Whatever label `Detect` returns is explained by a hit of that provider
   * under that rule, and nothing was recognised by an earlier rule or by
   * an earlier provider under the same rule.
   */
  lemma DetectIsFirstHit(raw: string, parsed: map<string, Value>, s: nat, j: nat)
    requires s < |Rules| && j < |Providers|
    requires Detect(raw, parsed) == Label(Providers[j], Rules[s])
    ensures Hits(Providers[j], Rules[s], raw, parsed)
    ensures NoHit(Rules[..s], Providers, Checks(raw, parsed))
    ensures forall k :: 0 <= k < j ==> !Hits(Providers[k], Rules[s], raw, parsed)
  {
    LabelIsIdentified(s, j);
    var h := FirstHit(Rules, Providers, Checks(raw, parsed)).value;
    LabelsDistinct(h.0, h.1, s, j);
  }

  /** Conversely, the first hit is what `Detect` reports. */
  lemma FirstHitIsDetected(raw: string, parsed: map<string, Value>, s: nat, j: nat)
    requires s < |Rules| && j < |Providers|
    requires Hits(Providers[j], Rules[s], raw, parsed)
    requires NoHit(Rules[..s], Providers, Checks(raw, parsed))
    requires forall k :: 0 <= k < j ==> !Hits(Providers[k], Rules[s], raw, parsed)
    ensures Detect(raw, parsed) == Label(Providers[j], Rules[s])
  {
    FirstHitUnique(Rules, Providers, Checks(raw, parsed), s, j);
  }

  /** The labels the examples below expect. */
  lemma LabelTexts()
    ensures Label(Providers[0], Rules[1]) == "BIOPROTECE (por Lote)"
    ensures Label(Providers[1], Rules[0]) == "SAI (por GTIN)"
    ensures Label(Providers[1], Rules[3]) == "SAI (por texto)"
  {
  }

  /** `/i`: a pattern matches a string exactly when it matches its upper-case form. */
  lemma MatchesIgnoresCase(p: Pattern, s: string)
    ensures Matches(p, s) <==> Matches(p, Upper(s))
  {
    var u := Upper(s);
    if p == SerialSai && |s| >= 8 {
      assert Upper(u[..4]) == Upper(s[..4]);
    }
  }

  /** The raw-text check does not depend on the case of the scanned text. */
  lemma TextCheckIgnoresCase(p: Provider, raw: string, parsed: map<string, Value>)
    ensures Hits(p, ByText, raw, parsed) <==> Hits(p, ByText, Upper(raw), parsed)
  {
    UpperIdempotent(raw);
  }

  /** A GTIN with a provider's prefix wins over every other clue in the scan. */
  lemma GtinPrefixWins(raw: string, parsed: map<string, Value>, gtin: string)
    requires "01" in parsed && parsed["01"] == Str("8422222" + gtin)
    ensures Detect(raw, parsed) == "SAI (por GTIN)"
  {
    var g := "8422222" + gtin;
    assert g[..7] == "8422222";
    assert !StartsWith(g, Providers[0].gtinPrefix) by {
      assert g[2] != Providers[0].gtinPrefix[2];
    }
    assert Rules[..0] == [];
    FirstHitIsDetected(raw, parsed, 0, 1);
    LabelTexts();
  }

  /** A lower-case lot of the `B` form is recognised when no GTIN prefix matches. */
  lemma LowerCaseLotRecognised(raw: string)
    ensures Detect(raw, map["10" := Str("b12345")]) == "BIOPROTECE (por Lote)"
  {
    var parsed := map["10" := Str("b12345")];
    assert Rules[..1] == [ByGtin];
    FirstHitIsDetected(raw, parsed, 1, 0);
    LabelTexts();
  }

  /** The provider name in any case anywhere in the raw text is enough on its own. */
  lemma TextRecognised()
    ensures Detect("lote sai", map[]) == "SAI (por texto)"
  {
    var raw := "lote sai";
    var u := Upper(raw);
    assert u[5..8] == "SAI";
    assert OccursAt(u, Upper("SAI"), 5);
    assert !Includes(u, Upper("BIOPROTECE")) by {
      assert |u| < |Upper("BIOPROTECE")|;
    }
    assert Rules[..3] == [ByGtin, ByLot, BySerial];
    FirstHitIsDetected(raw, map[], 3, 1);
    LabelTexts();
  }
}
