/**
 * `parseGS1Data` of scanner.js: the cursor walk over a scanned GS1 element
 * string, and the post-pass that adds the `<ai>_formatted` and
 * `<ai>_expired` entries for the date AIs.
 */
module Gs1Tokenizer {
  import opened Optional
  import opened JsString
  import opened Gs1Registry
  import opened Gs1Dates

  /** One AI read at the cursor: its code, its value and where the cursor goes next. */
  datatype Token = Token(ai: string, value: string, next: nat)

  /** The property values `parseGS1Data` stores: strings, and true/false/null expiry flags. */
  datatype Value = Str(text: string) | Bool(flag: bool) | Null

  /** `remainingData.substring(i, i + len)`: may be shorter than `len` near the end. */
  function Candidate(data: string, i: nat, len: nat): string {
    Substring(data, i, i + len)
  }

  predicate Accepts(code: string) {
    AllDigits(code) && IsKnown(code)
  }

  /**
   * The loop over candidate lengths from `len` down to 2: the first length
   * whose candidate passes the test `accepts`, the longest one. The
   * tokenizer's test is `Accepts`; the search itself does not depend on it.
   */
  function MatchFrom(accepts: string -> bool, data: string, i: nat, len: nat): (r: Option<nat>)
    requires 2 <= len
    ensures r.Some? ==> 2 <= r.value <= len && accepts(Candidate(data, i, r.value))
    decreases len
  {
    if accepts(Candidate(data, i, len)) then Some(len)
    else if len == 2 then None
    else MatchFrom(accepts, data, i, len - 1)
  }

  /** No longer candidate than the one chosen is accepted. */
  lemma {:induction false} MatchFromLongest(accepts: string -> bool, data: string, i: nat, len: nat)
    requires 2 <= len && MatchFrom(accepts, data, i, len).Some?
    ensures forall l :: MatchFrom(accepts, data, i, len).value < l <= len ==> !accepts(Candidate(data, i, l))
    decreases len
  {
    if !accepts(Candidate(data, i, len)) {
      MatchFromLongest(accepts, data, i, len - 1);
    }
  }

  /** The search comes back empty exactly when no candidate from 2 to `len` is accepted. */
  lemma {:induction false} MatchFromNone(accepts: string -> bool, data: string, i: nat, len: nat)
    requires 2 <= len
    ensures MatchFrom(accepts, data, i, len).None? <==> forall l :: 2 <= l <= len ==> !accepts(Candidate(data, i, l))
    decreases len
  {
    if len > 2 && !accepts(Candidate(data, i, len)) {
      MatchFromNone(accepts, data, i, len - 1);
    }
  }

  /** The candidate length tried first that is accepted: 4, then 3, then 2. */
  function MatchLength(data: string, i: nat): Option<nat> {
    MatchFrom(Accepts, data, i, 4)
  }

  /** The candidate is the text at the cursor; it falls short of `len` only at the end of input. */
  lemma CandidateShape(data: string, i: nat, len: nat)
    requires i < |data|
    ensures var c := Candidate(data, i, len);
      && i + |c| <= |data| && data[i..i + |c|] == c
      && Clamp(i + len, |data|) == i + |c|
      && (|c| == len || (|c| < len && i + |c| == |data|))
  {
  }

  /**
   * A fixed-length value read from `start` (clamped to the input): the table
   * length `n` of text when that much is left, otherwise the truncated rest;
   * one FNC1 right after a complete value is skipped.
   */
  function ReadFixed(data: string, start: nat, n: nat): (r: (string, nat))
    ensures var (value, next) := r; var s := Clamp(start, |data|); var e := s + |value|;
      && e <= |data| && data[s..e] == value
      && (|value| == n || (|value| < n && e == |data|))
      && (next == e || (next == e + 1 && e < |data| && data[e] == Fnc1))
      && (next == e + 1 <==> |value| == n && e < |data| && data[e] == Fnc1)
  {
    if |data| >= start + n then
      var next := start + n;
      (Substring(data, start, next), if next < |data| && data[next] == Fnc1 then next + 1 else next)
    else
      (Substring(data, start, |data|), |data|)
  }

  /**
   * A variable-length value read from `start` (clamped to the input): the
   * text up to the next FNC1, which is consumed, or up to the end.
   */
  function ReadVariable(data: string, start: nat): (r: (string, nat))
    ensures var (value, next) := r; var s := Clamp(start, |data|); var e := s + |value|;
      && e <= |data| && data[s..e] == value
      && Fnc1 !in value
      && ((e == |data| && next == e) || (e < |data| && data[e] == Fnc1 && next == e + 1))
  {
    match IndexOf(data, Fnc1, start)
    case Some(pos) =>
      var value := Substring(data, start, pos);
      assert forall k :: 0 <= k < |value| ==> value[k] == data[start + k];
      (value, pos + 1)
    case None =>
      var value := Substring(data, start, |data|);
      assert forall k :: 0 <= k < |value| ==> value[k] == data[Clamp(start, |data|) + k];
      (value, |data|)
  }

  /**
   * The AI `Candidate(data, i, len)` and its value, read by the fixed- or
   * variable-length rule; `ai + value` is the text at the cursor and the
   * cursor moves strictly forward.
   */
  function ReadToken(data: string, i: nat, len: nat): (t: Token)
    requires i < |data| && AllDigits(Candidate(data, i, len))
    ensures t.ai == Candidate(data, i, len)
    ensures i < t.next <= |data|
    ensures i + |t.ai| + |t.value| <= |data|
    ensures data[i..i + |t.ai| + |t.value|] == t.ai + t.value
  {
    var ai := Candidate(data, i, len);
    CandidateShape(data, i, len);
    var rd := ReadValue(data, i + len, ai);
    ValueFollowsCode(data, i, ai, rd.0);
    Token(ai, rd.0, rd.1)
  }

  /** The value of `ai` read from `start`: by its table length when it is fixed-length, otherwise up to FNC1. */
  function ReadValue(data: string, start: nat, ai: string): (string, nat) {
    if ai in FixedLengths then ReadFixed(data, start, FixedLengths[ai]) else ReadVariable(data, start)
  }

  /**
   * One turn of the loop at cursor `i`: nothing when no candidate is
   * accepted, otherwise the token of the longest accepted candidate.
   */
  function Step(data: string, i: nat): (r: Option<Token>)
    requires i < |data|
    ensures r.None? <==> MatchLength(data, i).None?
    ensures r.Some? ==> i < r.value.next <= |data|
  {
    match MatchLength(data, i)
    case None => None
    case Some(len) => Some(ReadToken(data, i, len))
  }

  /**
   * The token read at `i` is the longest accepted candidate followed by
   * its value: `ai + value` is the text at the cursor.
   */
  lemma StepToken(data: string, i: nat)
    requires i < |data| && Step(data, i).Some?
    ensures var t := Step(data, i).value;
      && Accepts(t.ai) && t.ai == Candidate(data, i, MatchLength(data, i).value)
      && i + |t.ai| + |t.value| <= |data|
      && data[i..i + |t.ai| + |t.value|] == t.ai + t.value
  {
  }

  lemma ValueFollowsCode(data: string, i: nat, ai: string, value: string)
    requires i + |ai| + |value| <= |data|
    requires data[i..i + |ai|] == ai && data[i + |ai|..i + |ai| + |value|] == value
    ensures data[i..i + |ai| + |value|] == ai + value
  {
    SliceSplit(data, i, i + |ai|, i + |ai| + |value|);
  }

  /**
   * A fixed-length AI's value has the table length, or is the truncated
   * rest of the input; one FNC1 right after a complete value is skipped.
   */
  lemma StepFixed(data: string, i: nat)
    requires i < |data| && Step(data, i).Some? && IsFixed(Step(data, i).value.ai)
    ensures var t := Step(data, i).value; var n, e := FixedLengths[t.ai], i + |t.ai| + |t.value|;
      && data[i + |t.ai|..e] == t.value
      && (|t.value| == n || (|t.value| < n && e == |data|))
      && (t.next == e || (t.next == e + 1 && e < |data| && data[e] == Fnc1))
      && (t.next == e + 1 <==> |t.value| == n && e < |data| && data[e] == Fnc1)
  {
    var len := MatchLength(data, i).value;
    CandidateShape(data, i, len);
    assert Step(data, i).value == ReadToken(data, i, len);
  }

  /**
   * A variable-length AI's value runs up to the next FNC1, which is
   * consumed, or to the end of input; it never holds an FNC1.
   */
  lemma StepVariable(data: string, i: nat)
    requires i < |data| && Step(data, i).Some? && !IsFixed(Step(data, i).value.ai)
    ensures var t := Step(data, i).value; var e := i + |t.ai| + |t.value|;
      && data[i + |t.ai|..e] == t.value
      && Fnc1 !in t.value
      && ((e == |data| && t.next == e) || (e < |data| && data[e] == Fnc1 && t.next == e + 1))
  {
    var len := MatchLength(data, i).value;
    CandidateShape(data, i, len);
    assert Step(data, i).value == ReadToken(data, i, len);
  }

  /**
   * The loop from cursor `i`: one token per turn, a repeated AI overwrites,
   * and it stops at the end of input or at the first cursor where no known
   * AI starts.
   */
  function Scan(data: string, i: nat, acc: map<string, string>): map<string, string>
    requires i <= |data|
    decreases |data| - i
  {
    if i >= |data| then acc
    else
      match Step(data, i)
      case None => acc
      case Some(t) => Scan(data, t.next, acc[t.ai := t.value])
  }

  /**
   * What the loop keeps and adds: every key already collected stays, every
   * key it adds is a known AI, and where no known AI starts it stops with
   * what it has.
   */
  lemma {:induction false} ScanKeys(data: string, i: nat, acc: map<string, string>)
    requires i <= |data|
    ensures acc.Keys <= Scan(data, i, acc).Keys
    ensures forall k :: k in Scan(data, i, acc) && k !in acc ==> Accepts(k)
    ensures i == |data| || MatchLength(data, i).None? ==> Scan(data, i, acc) == acc
    decreases |data| - i
  {
    if i < |data| && Step(data, i).Some? {
      var t := Step(data, i).value;
      StepToken(data, i);
      ScanKeys(data, t.next, acc[t.ai := t.value]);
    }
  }

  /**
   * The date AIs of the post-pass, each with whether it also gets an
   * `_expired` entry: 11 and 13 are formatted only, 15 and 17 both.
   */
  const DateRules: seq<(string, bool)> := [("11", false), ("13", false), ("15", true), ("17", true)]

  const FormattedSuffix: string := "_formatted"
  const ExpiredKeySuffix: string := "_expired"

  function ExpiredValue(flag: Option<bool>): Value {
    match flag
    case Some(b) => Bool(b)
    case None => Null
  }

  /** A key the post-pass writes: a two-character AI followed by an underscore suffix. */
  predicate IsDerivedKey(k: string) {
    |k| > 2 && k[2] == '_'
  }

  /** The entries the post-pass gives one date AI present in `raw`. */
  predicate HasDateEntries(r: map<string, Value>, raw: map<string, string>, rule: (string, bool), clock: Clock)
    requires rule.0 in raw
  {
    var info := FormatGS1Date(raw[rule.0], clock);
    && rule.0 + FormattedSuffix in r && r[rule.0 + FormattedSuffix] == Str(info.formatted)
    && (rule.1 ==> rule.0 + ExpiredKeySuffix in r && r[rule.0 + ExpiredKeySuffix] == ExpiredValue(info.isExpired))
  }

  /** A key that the post-pass writes for `rule`. */
  predicate WrittenFor(k: string, raw: map<string, string>, rule: (string, bool)) {
    rule.0 in raw && (k == rule.0 + FormattedSuffix || (rule.1 && k == rule.0 + ExpiredKeySuffix))
  }

  lemma SuffixedKeys(ai: string, suffix: string)
    requires |ai| == 2 && |suffix| > 0 && suffix[0] == '_'
    ensures IsDerivedKey(ai + suffix) && (ai + suffix)[..2] == ai
  {
    assert (ai + suffix)[2] == suffix[0];
  }

  /** The post-pass for one date AI: its `_formatted` entry and, when asked, its `_expired` entry. */
  function AddDate(m: map<string, Value>, raw: map<string, string>, rule: (string, bool), clock: Clock): (r: map<string, Value>)
    requires |rule.0| == 2
    ensures forall k :: k in m && (!IsDerivedKey(k) || k[..2] != rule.0) ==> k in r && r[k] == m[k]
    ensures forall k :: k in r ==> k in m || WrittenFor(k, raw, rule)
    ensures rule.0 in raw ==> HasDateEntries(r, raw, rule, clock)
  {
    SuffixedKeys(rule.0, FormattedSuffix);
    SuffixedKeys(rule.0, ExpiredKeySuffix);
    if rule.0 in raw then
      var info := FormatGS1Date(raw[rule.0], clock);
      var m' := m[rule.0 + FormattedSuffix := Str(info.formatted)];
      if rule.1 then m'[rule.0 + ExpiredKeySuffix := ExpiredValue(info.isExpired)] else m'
    else m
  }

  /** `k` is none of the keys a list of date rules can write. */
  predicate NotWrittenBy(k: string, rules: seq<(string, bool)>) {
    !IsDerivedKey(k) || forall j :: 0 <= j < |rules| ==> rules[j].0 != k[..2]
  }

  predicate WellFormedRules(rules: seq<(string, bool)>) {
    && (forall j :: 0 <= j < |rules| ==> |rules[j].0| == 2)
    && (forall j, k :: 0 <= j < k < |rules| ==> rules[j].0 != rules[k].0)
  }

  /**
   * The post-pass over a list of date rules: entries that are not derived
   * keys stay as they are, every rule whose AI is present gets its entries,
   * and nothing else is added.
   */
  function PostPass(m: map<string, Value>, raw: map<string, string>, rules: seq<(string, bool)>, clock: Clock): (r: map<string, Value>)
    requires WellFormedRules(rules)
    ensures forall k :: k in m && NotWrittenBy(k, rules) ==> k in r && r[k] == m[k]
    ensures forall j :: 0 <= j < |rules| && rules[j].0 in raw ==> HasDateEntries(r, raw, rules[j], clock)
    ensures forall k :: k in r ==> k in m || exists j :: 0 <= j < |rules| && WrittenFor(k, raw, rules[j])
    decreases |rules|
  {
    if |rules| == 0 then m
    else
      var m1 := AddDate(m, raw, rules[0], clock);
      var r := PostPass(m1, raw, rules[1..], clock);
      assert forall j :: 0 < j < |rules| ==> rules[j] == rules[1..][j - 1];
      SuffixedKeys(rules[0].0, FormattedSuffix);
      SuffixedKeys(rules[0].0, ExpiredKeySuffix);
      assert NotWrittenBy(rules[0].0 + FormattedSuffix, rules[1..]);
      assert NotWrittenBy(rules[0].0 + ExpiredKeySuffix, rules[1..]);
      forall k | k in m && NotWrittenBy(k, rules)
        ensures k in m1 && m1[k] == m[k] && NotWrittenBy(k, rules[1..])
      {
      }
      r
  }

  /**
   * The post-pass of `parseGS1Data` over the raw fields. Raw entries stay as
   * they are; every date AI present gains `_formatted`, only 15 and 17 gain
   * `_expired`, and no other key appears.
   */
  function Interpret(raw: map<string, string>, clock: Clock): (r: map<string, Value>)
    requires forall k :: k in raw ==> AllDigits(k)
    ensures forall k :: k in raw ==> k in r && r[k] == Str(raw[k])
    ensures forall j :: 0 <= j < |DateRules| && DateRules[j].0 in raw ==> HasDateEntries(r, raw, DateRules[j], clock)
    ensures forall k :: k in r ==> k in raw || exists j :: 0 <= j < |DateRules| && WrittenFor(k, raw, DateRules[j])
  {
    var base := map k | k in raw :: Str(raw[k]);
    forall k | k in raw
      ensures k in base && base[k] == Str(raw[k]) && NotWrittenBy(k, DateRules)
    {
      if |k| > 2 {
        assert AllDigits(k);
        assert IsDigit(k[2]);
      }
    }
    assert base.Keys == raw.Keys;
    PostPass(base, raw, DateRules, clock)
  }

  /** Production and packaging dates never get an `_expired` entry. */
  lemma NoExpiryForProductionDates(raw: map<string, string>, clock: Clock)
    requires forall k :: k in raw ==> AllDigits(k)
    ensures "11_expired" !in Interpret(raw, clock) && "13_expired" !in Interpret(raw, clock)
  {
    assert !IsDigit("11_expired"[2]) && !IsDigit("13_expired"[2]);
    assert "11_expired" !in raw && "13_expired" !in raw;
    forall j | 0 <= j < |DateRules|
      ensures !WrittenFor("11_expired", raw, DateRules[j]) && !WrittenFor("13_expired", raw, DateRules[j])
    {
      assert |"11_expired"| != |DateRules[j].0 + FormattedSuffix|;
      if DateRules[j].1 {
        assert DateRules[j].0[1] == '5' || DateRules[j].0[1] == '7';
        assert (DateRules[j].0 + ExpiredKeySuffix)[1] == DateRules[j].0[1];
      }
    }
  }

  /** Every key of the interpretation is a raw key or a derived `<ai>_...` key. */
  lemma InterpretKeys(raw: map<string, string>, clock: Clock)
    requires forall k :: k in raw ==> AllDigits(k)
    ensures forall k :: k in Interpret(raw, clock) ==> k in raw || IsDerivedKey(k)
  {
    forall k, j | k !in raw && 0 <= j < |DateRules| && WrittenFor(k, raw, DateRules[j])
      ensures IsDerivedKey(k)
    {
      SuffixedKeys(DateRules[j].0, FormattedSuffix);
      SuffixedKeys(DateRules[j].0, ExpiredKeySuffix);
    }
  }

  /**
   * `parseGS1Data(data)` with the clock passed in: empty input gives no
   * fields, and every key is a known AI or a derived `<ai>_...` entry.
   */
  function ParseGS1Data(data: string, clock: Clock): (r: map<string, Value>)
    ensures data == "" ==> r == map[]
    ensures forall k :: k in r ==> Accepts(k) || IsDerivedKey(k)
  {
    if data == "" then map[]
    else
      var raw := Scan(data, 0, map[]);
      ScanKeys(data, 0, map[]);
      InterpretKeys(raw, clock);
      Interpret(raw, clock)
  }

  /** An all-digit key of the parsed result is a scanned AI, so its entry is text. */
  lemma ParsedCodeIsText(data: string, clock: Clock, key: string)
    requires AllDigits(key)
    ensures key in ParseGS1Data(data, clock) ==> ParseGS1Data(data, clock)[key].Str?
  {
    if data != "" {
      ScanKeys(data, 0, map[]);
      InterpretedCodeIsText(Scan(data, 0, map[]), clock, key);
    }
  }

  /** The post-pass adds only derived keys, so an all-digit key it leaves holds text. */
  lemma InterpretedCodeIsText(raw: map<string, string>, clock: Clock, key: string)
    requires forall k :: k in raw ==> AllDigits(k)
    requires AllDigits(key)
    ensures key in Interpret(raw, clock) ==> Interpret(raw, clock)[key].Str?
  {
    InterpretKeys(raw, clock);
    if |key| > 2 {
      assert IsDigit(key[2]);
    }
  }

  // ---------------------------------------------------------------------
  // Encoding and the round trip
  // ---------------------------------------------------------------------

  /**
   * One element string: an AI and its data. `fnc1After` says whether an
   * FNC1 is written after a fixed-length value that is not the last one;
   * GS1 requires it after the fixed-length AIs outside its predefined-length
   * list, such as 8005, and omits it after the others. A variable-length
   * value that is not the last is always followed by FNC1.
   */
  datatype Element = Element(ai: string, value: string, fnc1After: bool)

  /**
   * The elements a GS1 encoder may put in sequence: known AIs, fixed-length
   * data of exactly the table length, variable-length data free of FNC1.
   */
  predicate ValidElement(e: Element) {
    && Accepts(e.ai)
    && (if IsFixed(e.ai) then |e.value| == FixedLengths[e.ai] else Fnc1 !in e.value)
  }

  /** Every element of a sequence is valid. */
  predicate AllValid(es: seq<Element>) {
    |es| > 0 ==> ValidElement(es[0]) && AllValid(es[1..])
  }

  lemma {:induction false} AllValidIndexed(es: seq<Element>)
    requires forall k :: 0 <= k < |es| ==> ValidElement(es[k])
    ensures AllValid(es)
  {
    if |es| > 0 {
      assert forall k :: 0 <= k < |es[1..]| ==> es[1..][k] == es[k + 1];
      AllValidIndexed(es[1..]);
    }
  }

  /**
   * Concatenation of element strings: an FNC1 follows every value except
   * the last, unless the value is fixed-length and written without one.
   */
  function Encode(es: seq<Element>): string {
    if |es| == 0 then ""
    else es[0].ai + es[0].value + Separator(es) + Encode(es[1..])
  }

  function Separator(es: seq<Element>): string
    requires |es| > 0
  {
    if |es| > 1 && (!IsFixed(es[0].ai) || es[0].fnc1After) then [Fnc1] else ""
  }

  /** The fields a sequence of elements denotes: later elements win. */
  function Fields(acc: map<string, string>, es: seq<Element>): map<string, string>
    decreases |es|
  {
    if |es| == 0 then acc else Fields(acc[es[0].ai := es[0].value], es[1..])
  }

  /** `Scan` takes one step when a known AI starts at the cursor. */
  lemma ScanStep(data: string, i: nat, acc: map<string, string>, c: string, v: string, next: nat)
    requires Reads(data, i, c, v, next)
    ensures next <= |data| && Scan(data, i, acc) == Scan(data, next, acc[c := v])
  {
  }

  /**
   * Longest match first never misreads a known code: when one starts at
   * the cursor, it is the AI read there, whatever digits follow it.
   */
  lemma KnownCodeIsRead(data: string, i: nat, c: string)
    requires Accepts(c) && i + |c| <= |data| && data[i..i + |c|] == c
    ensures MatchLength(data, i).Some? && Candidate(data, i, MatchLength(data, i).value) == c
  {
    KnownIsDescribed(c);
    KnownByLength(c);
    assert Candidate(data, i, |c|) == c;
    MatchFromNone(Accepts, data, i, 4);
    MatchFromLongest(Accepts, data, i, 4);
    forall len | |c| < len <= 4
      ensures Accepts(Candidate(data, i, len)) ==> Candidate(data, i, len) == c
    {
      LongerCandidate(data, i, c, len);
    }
  }

  /** A longer candidate at a known code is that code again (cut by the end of input) or no known code. */
  lemma LongerCandidate(data: string, i: nat, c: string, len: nat)
    requires Accepts(c) && i + |c| <= |data| && data[i..i + |c|] == c && |c| < len
    ensures Accepts(Candidate(data, i, len)) ==> Candidate(data, i, len) == c
  {
    var cand := Candidate(data, i, len);
    CandidatePrefix(data, i, c, len);
    if |cand| > |c| && IsKnown(cand) {
      PrefixFree(c, cand);
    }
  }

  /** The candidate at the start of `c` begins with `c` when it is at least as long. */
  lemma CandidatePrefix(data: string, i: nat, c: string, len: nat)
    requires i + |c| <= |data| && data[i..i + |c|] == c && |c| <= len
    ensures |Candidate(data, i, len)| >= |c| && Candidate(data, i, len)[..|c|] == c
  {
  }

  /**
   * Where a known code starts, the step reads that code and then its value
   * from just after it.
   */
  lemma StepAtKnown(data: string, i: nat, c: string, v: string, next: nat)
    requires Accepts(c) && i + |c| <= |data| && data[i..i + |c|] == c
    requires ReadValue(data, i + |c|, c) == (v, next)
    ensures Reads(data, i, c, v, next)
  {
    KnownCodeIsRead(data, i, c);
    var len := MatchLength(data, i).value;
    ValueAfterCandidate(data, i, len, c, v, next);
    StepIs(data, i, len);
    TokenIs(data, i, len, c, v, next);
  }

  /** The value read after the candidate is the value read after the code it equals. */
  lemma ValueAfterCandidate(data: string, i: nat, len: nat, c: string, v: string, next: nat)
    requires i < |data| && Candidate(data, i, len) == c
    requires ReadValue(data, i + |c|, c) == (v, next)
    ensures ReadValue(data, i + len, c) == (v, next)
  {
    CandidateShape(data, i, len);
    ReadValueClamped(data, i + len, i + |c|, c);
  }

  /** The step at `i` is the token of the matched length. */
  lemma StepIs(data: string, i: nat, len: nat)
    requires i < |data| && MatchLength(data, i) == Some(len)
    ensures Step(data, i) == Some(ReadToken(data, i, len))
  {
  }

  /** The token read with candidate `c` of length `len` is `c` with the value read after the candidate. */
  lemma TokenIs(data: string, i: nat, len: nat, c: string, v: string, next: nat)
    requires i < |data| && Candidate(data, i, len) == c && AllDigits(c)
    requires ReadValue(data, i + len, c) == (v, next)
    ensures ReadToken(data, i, len) == Token(c, v, next)
  {
  }

  /**
   * Reading from past the end of input is reading from the end: the value
   * is empty and the cursor stops at the end.
   */
  lemma ReadValueClamped(data: string, start: nat, s: nat, ai: string)
    requires s == Clamp(start, |data|)
    ensures ReadValue(data, start, ai) == ReadValue(data, s, ai)
  {
    if start > |data| && ai in FixedLengths {
      assert FixedLengths[ai] > 0;
    }
  }

  /** Two FNC1-free runs at the same place, each ending at an FNC1 or at the end, are equal. */
  lemma RunUnique(data: string, j: nat, v1: string, v2: string)
    requires j + |v1| <= |data| && data[j..j + |v1|] == v1 && Fnc1 !in v1
    requires j + |v2| <= |data| && data[j..j + |v2|] == v2 && Fnc1 !in v2
    requires j + |v1| == |data| || data[j + |v1|] == Fnc1
    requires j + |v2| == |data| || data[j + |v2|] == Fnc1
    ensures v1 == v2
  {
    forall k | j <= k < j + |v1|
      ensures data[k] != Fnc1
    {
      assert data[k] == v1[k - j] && v1[k - j] in v1;
    }
    forall k | j <= k < j + |v2|
      ensures data[k] != Fnc1
    {
      assert data[k] == v2[k - j] && v2[k - j] in v2;
    }
    assert |v1| == |v2|;
  }

  lemma EncodeStartsWithDigit(es: seq<Element>)
    requires |es| > 0 && ValidElement(es[0])
    ensures |Encode(es)| > 0 && IsDigit(Encode(es)[0])
  {
    assert Encode(es)[0] == es[0].ai[0];
  }

  /** The step at `i` reads the AI `c` with value `v` and moves the cursor to `next`. */
  predicate Reads(data: string, i: nat, c: string, v: string, next: nat) {
    && i < |data| && Step(data, i).Some?
    && Step(data, i).value.ai == c && Step(data, i).value.value == v && Step(data, i).value.next == next
  }

  /** A complete fixed-length value at `s` is what `ReadValue` reads; one FNC1 after it is skipped. */
  lemma ReadFixedValue(data: string, s: nat, c: string, v: string, next: nat)
    requires IsFixed(c) && |v| == FixedLengths[c]
    requires s + |v| <= |data| && data[s..s + |v|] == v
    requires next == if s + |v| < |data| && data[s + |v|] == Fnc1 then s + |v| + 1 else s + |v|
    ensures ReadValue(data, s, c) == (v, next)
  {
  }

  /** An FNC1-free run at `s`, ended by FNC1 or the end of input, is what `ReadValue` reads. */
  lemma ReadVariableValue(data: string, s: nat, c: string, v: string, next: nat)
    requires !IsFixed(c) && Fnc1 !in v
    requires s + |v| <= |data| && data[s..s + |v|] == v
    requires s + |v| == |data| || data[s + |v|] == Fnc1
    requires next == if s + |v| == |data| then s + |v| else s + |v| + 1
    ensures ReadValue(data, s, c) == (v, next)
  {
    var rd := ReadVariable(data, s);
    RunUnique(data, s, rd.0, v);
  }

  /** A known fixed-length AI followed by a complete value is read as exactly that. */
  lemma ReadKnownFixed(data: string, i: nat, c: string, v: string, next: nat)
    requires Accepts(c) && IsFixed(c) && |v| == FixedLengths[c]
    requires i + |c| + |v| <= |data| && data[i..i + |c|] == c && data[i + |c|..i + |c| + |v|] == v
    requires var e := i + |c| + |v|; next == if e < |data| && data[e] == Fnc1 then e + 1 else e
    ensures Reads(data, i, c, v, next)
  {
    ReadFixedValue(data, i + |c|, c, v, next);
    StepAtKnown(data, i, c, v, next);
  }

  /** A known variable-length AI followed by an FNC1-free run up to an FNC1 or the end is read as exactly that. */
  lemma ReadKnownVariable(data: string, i: nat, c: string, v: string, next: nat)
    requires Accepts(c) && !IsFixed(c) && Fnc1 !in v
    requires i + |c| + |v| <= |data| && data[i..i + |c|] == c && data[i + |c|..i + |c| + |v|] == v
    requires i + |c| + |v| == |data| || data[i + |c| + |v|] == Fnc1
    requires var e := i + |c| + |v|; next == if e == |data| then e else e + 1
    ensures Reads(data, i, c, v, next)
  {
    ReadVariableValue(data, i + |c|, c, v, next);
    StepAtKnown(data, i, c, v, next);
  }

  /**
   * One step at an element string `c + v` reads exactly it, when what
   * follows is nothing, an FNC1, or a digit after fixed-length data; the
   * FNC1 is consumed.
   */
  lemma StepElement(data: string, i: nat, el: Element, rest: string, next: nat)
    requires i <= |data| && data[i..] == el.ai + el.value + rest
    requires ValidElement(el) && MayFollow(el, rest)
    requires next == i + |el.ai| + |el.value| + (if |rest| > 0 && rest[0] == Fnc1 then 1 else 0)
    ensures Reads(data, i, el.ai, el.value, next)
  {
    var c, v := el.ai, el.value;
    SuffixPieces(data, i, c, v, rest);
    if IsFixed(c) {
      ReadKnownFixed(data, i, c, v, next);
    } else {
      ReadKnownVariable(data, i, c, v, next);
    }
  }

  /** What may follow an element string: nothing, an FNC1, or a digit after fixed-length data. */
  predicate MayFollow(el: Element, rest: string) {
    |rest| > 0 ==> rest[0] == Fnc1 || (IsFixed(el.ai) && IsDigit(rest[0]))
  }

  /**
   * An encoding is its first element string followed by the separator and
   * the rest; what follows the first element may follow it, and the
   * separator is the one FNC1 a step consumes.
   */
  lemma EncodeCons(es: seq<Element>)
    requires |es| > 0 && AllValid(es)
    ensures var sep, tail := Separator(es), Encode(es[1..]);
      && Encode(es) == es[0].ai + es[0].value + (sep + tail)
      && MayFollow(es[0], sep + tail)
      && |sep| == (if |sep + tail| > 0 && (sep + tail)[0] == Fnc1 then 1 else 0)
  {
    var c, v, sep, tail := es[0].ai, es[0].value, Separator(es), Encode(es[1..]);
    assert Encode(es) == c + v + sep + tail;
    ConcatRegroup(c, v, sep, tail);
    if |es| > 1 {
      assert AllValid(es[1..]);
      EncodeStartsWithDigit(es[1..]);
      if sep == [] {
        assert IsFixed(c) && (sep + tail)[0] == tail[0];
      } else {
        assert sep == [Fnc1] && (sep + tail)[0] == Fnc1;
      }
    } else {
      assert sep == [] && tail == [];
    }
  }

  /**
   * The step at the start of an encoding reads its first element, and the
   * cursor then stands at the encoding of the rest.
   */
  lemma StepEncode(data: string, i: nat, es: seq<Element>, j: nat)
    requires i <= |data| && data[i..] == Encode(es)
    requires |es| > 0 && AllValid(es)
    requires j == i + |es[0].ai| + |es[0].value| + |Separator(es)|
    ensures Reads(data, i, es[0].ai, es[0].value, j)
    ensures j <= |data| && data[j..] == Encode(es[1..])
  {
    var c, v, sep, tail := es[0].ai, es[0].value, Separator(es), Encode(es[1..]);
    EncodeCons(es);
    StepElement(data, i, es[0], sep + tail, i + |c| + |v| + |sep|);
    EncodeRest(data, i, c, v, sep, tail);
  }

  /** After an element string and its separator, the cursor stands at the rest. */
  lemma EncodeRest(data: string, i: nat, c: string, v: string, sep: string, tail: string)
    requires i <= |data| && data[i..] == c + v + (sep + tail)
    ensures var j := i + |c| + |v| + |sep|; j <= |data| && data[j..] == tail
  {
    SuffixPieces(data, i, c, v, sep + tail);
    SuffixAfter(data, i + |c| + |v|, sep, tail);
  }

  /**
   * Decoding a valid concatenation of element strings gives back exactly
   * the fields that were encoded, wherever in the input it starts.
   */
  lemma {:induction false} ScanEncode(data: string, i: nat, es: seq<Element>, acc: map<string, string>)
    requires i <= |data| && data[i..] == Encode(es)
    requires AllValid(es)
    ensures Scan(data, i, acc) == Fields(acc, es)
    decreases |es|
  {
    if |es| == 0 {
      assert i == |data|;
    } else {
      var e := es[0];
      var j := i + |e.ai| + |e.value| + |Separator(es)|;
      ScanEncodeStep(data, i, es, acc, j);
      ScanEncode(data, j, es[1..], acc[e.ai := e.value]);
    }
  }

  /** One turn over an encoding: the first element is stored and the rest of the encoding remains. */
  lemma ScanEncodeStep(data: string, i: nat, es: seq<Element>, acc: map<string, string>, j: nat)
    requires i <= |data| && data[i..] == Encode(es)
    requires |es| > 0 && AllValid(es)
    requires j == i + |es[0].ai| + |es[0].value| + |Separator(es)|
    ensures j <= |data| && data[j..] == Encode(es[1..]) && AllValid(es[1..])
    ensures Scan(data, i, acc) == Scan(data, j, acc[es[0].ai := es[0].value])
    ensures Fields(acc, es) == Fields(acc[es[0].ai := es[0].value], es[1..])
  {
    assert AllValid(es[1..]);
    assert Fields(acc, es) == Fields(acc[es[0].ai := es[0].value], es[1..]);
    StepEncode(data, i, es, j);
    ScanStep(data, i, acc, es[0].ai, es[0].value, j);
  }

  /** The round trip from the empty prefix: the raw fields of a valid encoding are the encoded ones. */
  lemma RoundTrip(es: seq<Element>)
    requires forall k :: 0 <= k < |es| ==> ValidElement(es[k])
    ensures Scan(Encode(es), 0, map[]) == Fields(map[], es)
  {
    AllValidIndexed(es);
    ScanEncode(Encode(es), 0, es, map[]);
  }

  /**
   * The GS1 form of a fixed-length AI outside the predefined-length list:
   * 8005 followed by FNC1 and then AI 10 decodes to both fields.
   */
  lemma Fnc1After8005Decoded()
    ensures Scan("8005000123" + [Fnc1] + "10ABC", 0, map[]) == map["8005" := "000123", "10" := "ABC"]
  {
    var es := [Element("8005", "000123", true), Element("10", "ABC", false)];
    assert Accepts("8005") && IsFixed("8005") && FixedLengths["8005"] == 6;
    assert Accepts("10") && !IsFixed("10") && Fnc1 !in "ABC";
    assert ValidElement(es[0]) && ValidElement(es[1]);
    assert Encode(es[1..]) == "10ABC";
    assert Encode(es) == "8005000123" + [Fnc1] + "10ABC";
    RoundTrip(es);
  }

  /** A repeated AI overwrites: of two consecutive readings of the same AI, the second value is kept. */
  lemma RepeatedAiOverwrites(data: string, i: nat, c: string, v1: string, j: nat, v2: string, next: nat, acc: map<string, string>)
    requires Reads(data, i, c, v1, j) && Reads(data, j, c, v2, next)
    ensures Scan(data, i, acc) == Scan(data, next, acc[c := v2])
  {
    assert acc[c := v1][c := v2] == acc[c := v2];
    ScanStep(data, i, acc, c, v1, j);
    ScanStep(data, j, acc[c := v1], c, v2, next);
  }

  /**
   * A net-weight code with its decimal digit, such as 3102, is not in any
   * table: the scan takes the listed 310 and reads everything after it,
   * decimal digit included, as a variable-length value.
   */
  lemma WeightCodeReadAs310()
    ensures Scan("3102000123", 0, map[]) == map["310" := "2000123"]
  {
    var data := "3102000123";
    assert data[0..3] == "310" && data[3..10] == "2000123";
    assert Accepts("310") && !IsFixed("310");
    assert Fnc1 !in "2000123";
    ReadKnownVariable(data, 0, "310", "2000123", 10);
    ScanStep(data, 0, map[], "310", "2000123", 10);
  }
}
