/**
 * `parseGS1` and `validateFields` of script.js: the simpler parser that
 * splits on the group separator (or, without one, picks out "two digits
 * then non-digits" runs), keeps five AIs, and annotates the expiry date.
 */
module ScriptParser {
  import opened Optional
  import opened JsString
  import opened Gs1Registry

  /** The AIs the parser keeps; every other segment is dropped. */
  const Kept: set<string> := {"01", "10", "17", "21", "22"}

  /** `s.split(sep)` for a one-character separator: the pieces between separators. */
  function Split(s: string, sep: char): (r: seq<string>)
    ensures |r| >= 1
    ensures forall k :: 0 <= k < |r| ==> sep !in r[k]
    ensures |r| == 1 <==> sep !in s
    decreases |s|
  {
    match IndexOf(s, sep, 0)
    case None => [s]
    case Some(k) =>
      assert sep !in s[..k] by {
        forall i | 0 <= i < k ensures s[..k][i] != sep { }
      }
      assert s[k] in s;
      [s[..k]] + Split(s[k + 1..], sep)
  }

  /** `parts.join(sep)`. */
  function Join(parts: seq<string>, sep: char): string
    decreases |parts|
  {
    if |parts| == 0 then ""
    else if |parts| == 1 then parts[0]
    else parts[0] + [sep] + Join(parts[1..], sep)
  }

  /** Joining the pieces of a split gives the text back. */
  lemma {:induction false} SplitJoin(s: string, sep: char)
    ensures Join(Split(s, sep), sep) == s
    decreases |s|
  {
    match IndexOf(s, sep, 0)
    case None =>
    case Some(k) =>
      SplitJoin(s[k + 1..], sep);
      JoinCons(s[..k], Split(s[k + 1..], sep), sep);
      SplitAround(s, k);
  }

  lemma JoinCons(p: string, rest: seq<string>, sep: char)
    requires |rest| >= 1
    ensures Join([p] + rest, sep) == p + [sep] + Join(rest, sep)
  {
    assert ([p] + rest)[1..] == rest;
  }

  /** Splitting a join of separator-free pieces gives the pieces back. */
  lemma {:induction false} JoinSplit(parts: seq<string>, sep: char)
    requires |parts| >= 1
    requires forall k :: 0 <= k < |parts| ==> sep !in parts[k]
    ensures Split(Join(parts, sep), sep) == parts
    decreases |parts|
  {
    if |parts| == 1 {
      assert IndexOf(parts[0], sep, 0).None?;
    } else {
      JoinSplit(parts[1..], sep);
      JoinSplitStep(parts, sep);
    }
  }

  lemma JoinSplitStep(parts: seq<string>, sep: char)
    requires |parts| >= 2 && sep !in parts[0]
    requires Split(Join(parts[1..], sep), sep) == parts[1..]
    ensures Split(Join(parts, sep), sep) == parts
  {
    var tail := Join(parts[1..], sep);
    assert Join(parts, sep) == parts[0] + [sep] + tail;
    CutAtFirst(parts[0], sep, tail);
    assert parts == [parts[0]] + parts[1..];
  }

  /** The first separator of `p + [sep] + tail` is the one after `p`, when `p` has none. */
  lemma CutAtFirst(p: string, sep: char, tail: string)
    requires sep !in p
    ensures Split(p + [sep] + tail, sep) == [p] + Split(tail, sep)
  {
    var s := p + [sep] + tail;
    assert s[|p|] == sep;
    assert forall i :: 0 <= i < |p| ==> s[i] == p[i];
    assert IndexOf(s, sep, 0) == Some(|p|);
    assert s[..|p|] == p;
    assert s[|p| + 1..] == tail;
  }

  /** The characters `[^\d\x1D]` matches. */
  predicate IsRunChar(c: char) {
    !IsDigit(c) && c != Fnc1
  }

  /** `/(\d{2})([^\d\x1D]+)/` can match at `q`. */
  predicate MatchStartsAt(s: string, q: nat) {
    q + 3 <= |s| && IsDigit(s[q]) && IsDigit(s[q + 1]) && IsRunChar(s[q + 2])
  }

  /** The text of one match: two digits, then one or more run characters. */
  predicate IsMatchText(m: string) {
    |m| >= 3 && IsDigit(m[0]) && IsDigit(m[1]) && forall k :: 2 <= k < |m| ==> IsRunChar(m[k])
  }

  /** Where the greedy `[^\d\x1D]+` starting at `i` stops. */
  function RunEnd(s: string, i: nat): (r: nat)
    requires i <= |s|
    ensures i <= r <= |s|
    ensures forall k :: i <= k < r ==> IsRunChar(s[k])
    ensures r < |s| ==> !IsRunChar(s[r])
    decreases |s| - i
  {
    if i < |s| && IsRunChar(s[i]) then RunEnd(s, i + 1) else i
  }

  /**
   * `s.match(re)` with the global flag, from position `p` on: the leftmost
   * match, then the search resumes where it ended.
   */
  function MatchAll(s: string, p: nat): (r: seq<string>)
    requires p <= |s|
    ensures forall k :: 0 <= k < |r| ==> IsMatchText(r[k])
    ensures r == [] <==> forall q :: p <= q ==> !MatchStartsAt(s, q)
    decreases |s| - p
  {
    if p + 3 > |s| then []
    else if MatchStartsAt(s, p) then
      var e := RunEnd(s, p + 2);
      var m := s[p..e];
      assert IsMatchText(m) by {
        assert forall k :: 2 <= k < |m| ==> m[k] == s[p + k];
      }
      [m] + MatchAll(s, e)
    else MatchAll(s, p + 1)
  }

  /**
   * The first match is the leftmost one, and it is as long as it can be:
   * the run stops at the first digit, separator or end of text.
   */
  lemma {:induction false} FirstMatchLeftmostLongest(s: string, p: nat)
    requires p <= |s| && MatchAll(s, p) != []
    ensures exists q ::
        && p <= q && MatchStartsAt(s, q)
        && (forall q' :: p <= q' < q ==> !MatchStartsAt(s, q'))
        && MatchAll(s, p)[0] == s[q..RunEnd(s, q + 2)]
    decreases |s| - p
  {
    if MatchStartsAt(s, p) {
      MatchHere(s, p);
    } else {
      MatchLater(s, p);
      FirstMatchLeftmostLongest(s, p + 1);
      LeftmostFromLater(s, p);
    }
  }

  /** The leftmost match after `p` is the leftmost from `p` when none starts at `p`. */
  lemma LeftmostFromLater(s: string, p: nat)
    requires p < |s| && !MatchStartsAt(s, p) && MatchAll(s, p) == MatchAll(s, p + 1) != []
    requires exists q ::
        && p + 1 <= q && MatchStartsAt(s, q)
        && (forall q' :: p + 1 <= q' < q ==> !MatchStartsAt(s, q'))
        && MatchAll(s, p + 1)[0] == s[q..RunEnd(s, q + 2)]
    ensures exists q ::
        && p <= q && MatchStartsAt(s, q)
        && (forall q' :: p <= q' < q ==> !MatchStartsAt(s, q'))
        && MatchAll(s, p)[0] == s[q..RunEnd(s, q + 2)]
  {
    var q :| && p + 1 <= q && MatchStartsAt(s, q)
      && (forall q' :: p + 1 <= q' < q ==> !MatchStartsAt(s, q'))
      && MatchAll(s, p + 1)[0] == s[q..RunEnd(s, q + 2)];
    assert forall q' :: p <= q' < q ==> !MatchStartsAt(s, q');
  }

  lemma MatchHere(s: string, p: nat)
    requires p <= |s| && MatchStartsAt(s, p)
    ensures MatchAll(s, p) != [] && MatchAll(s, p)[0] == s[p..RunEnd(s, p + 2)]
  {
  }

  lemma MatchLater(s: string, p: nat)
    requires p <= |s| && !MatchStartsAt(s, p) && MatchAll(s, p) != []
    ensures p + 1 <= |s| && MatchAll(s, p) == MatchAll(s, p + 1)
  {
  }

  /** `part.slice(0, 2)`. */
  function Code(part: string): string {
    if |part| < 2 then part else part[..2]
  }

  /** `part.slice(2).trim()`. */
  function FieldValue(part: string): string {
    Trim(if |part| < 2 then "" else part[2..])
  }

  /** The loop over the segments: a kept code stores its value, later ones overwriting. */
  function Collect(parts: seq<string>): (r: map<string, string>)
    ensures r.Keys <= Kept
    decreases |parts|
  {
    if |parts| == 0 then map[]
    else
      var last := parts[|parts| - 1];
      var m := Collect(parts[..|parts| - 1]);
      if Code(last) in Kept then m[Code(last) := FieldValue(last)] else m
  }

  /** Segment `j` is the last one with code `k`. */
  predicate LastWith(parts: seq<string>, k: string, j: nat) {
    j < |parts| && Code(parts[j]) == k && forall i :: j < i < |parts| ==> Code(parts[i]) != k
  }

  /**
   * A kept code is in the result exactly when some segment carries it, and
   * its value comes from the last such segment.
   */
  lemma {:induction false} CollectLastWins(parts: seq<string>, k: string)
    ensures k in Collect(parts) <==> k in Kept && HasCode(parts, k)
    ensures k in Collect(parts) ==> exists j: nat :: LastWith(parts, k, j) && Collect(parts)[k] == FieldValue(parts[j])
    decreases |parts|
  {
    if |parts| > 0 {
      var n := |parts| - 1;
      var init := parts[..n];
      var c := Code(parts[n]);
      assert Collect(parts) == if c in Kept then Collect(init)[c := FieldValue(parts[n])] else Collect(init);
      CollectLastWins(init, k);
      HasCodeExtend(parts, k);
      if c == k {
        if k in Kept {
          assert LastWith(parts, k, n);
        }
      } else if k in Collect(parts) {
        var j: nat :| LastWith(init, k, j) && Collect(init)[k] == FieldValue(init[j]);
        LastWithExtend(parts, k, j);
      }
    }
  }

  /** Some segment carries code `k`. */
  predicate HasCode(parts: seq<string>, k: string) {
    exists j :: 0 <= j < |parts| && Code(parts[j]) == k
  }

  lemma HasCodeExtend(parts: seq<string>, k: string)
    requires |parts| > 0
    ensures HasCode(parts, k) <==> HasCode(parts[..|parts| - 1], k) || Code(parts[|parts| - 1]) == k
  {
    var n := |parts| - 1;
    if HasCode(parts, k) && Code(parts[n]) != k {
      var j :| 0 <= j < |parts| && Code(parts[j]) == k;
      assert parts[..n][j] == parts[j];
    }
    if HasCode(parts[..n], k) {
      var j :| 0 <= j < n && Code(parts[..n][j]) == k;
      assert parts[..n][j] == parts[j];
    }
  }

  lemma LastWithExtend(parts: seq<string>, k: string, j: nat)
    requires |parts| > 0 && LastWith(parts[..|parts| - 1], k, j) && Code(parts[|parts| - 1]) != k
    ensures LastWith(parts, k, j)
  {
    var n := |parts| - 1;
    forall i | j < i < |parts|
      ensures Code(parts[i]) != k
    {
      if i < n {
        assert parts[..n][i] == parts[i];
      }
    }
    assert parts[..n][j] == parts[j];
  }

  /** The segments: the split pieces when there is a separator, the regex matches otherwise. */
  function Segments(text: string): seq<string> {
    var pieces := Split(text, Fnc1);
    if |pieces| > 1 then pieces else MatchAll(text, 0)
  }

  /** `parseGS1`: only the five kept AIs ever appear as keys. */
  function ParseGS1(text: string): (r: map<string, string>)
    ensures r.Keys <= Kept
  {
    Collect(Segments(text))
  }

  /** With a separator the segments are exactly the pieces between separators. */
  lemma SeparatedSegments(text: string)
    requires Fnc1 in text
    ensures |Segments(text)| >= 2
    ensures Join(Segments(text), Fnc1) == text
    ensures forall k :: 0 <= k < |Segments(text)| ==> Fnc1 !in Segments(text)[k]
  {
    SplitJoin(text, Fnc1);
  }

  /** Trimming a string without digits leaves no digits. */
  lemma TrimKeepsNoDigits(s: string)
    requires NoDigits(s)
    ensures NoDigits(Trim(s))
  {
    var r := Trim(s);
    var a: nat :| TrimmedAt(s, r, a);
    assert forall k :: 0 <= k < |r| ==> r[k] == s[a + k];
  }

  /** Without a separator every stored value is free of digits. */
  lemma UnseparatedValuesHaveNoDigits(text: string, k: string)
    requires Fnc1 !in text && k in ParseGS1(text)
    ensures NoDigits(ParseGS1(text)[k])
  {
    var parts := Segments(text);
    assert parts == MatchAll(text, 0);
    CollectLastWins(parts, k);
    var j: nat :| LastWith(parts, k, j) && Collect(parts)[k] == FieldValue(parts[j]);
    var m := parts[j];
    assert IsMatchText(m);
    assert NoDigits(m[2..]) by {
      assert forall i :: 0 <= i < |m| - 2 ==> m[2..][i] == m[i + 2];
    }
    TrimKeepsNoDigits(m[2..]);
  }

  /** Without a separator and without any match there are no fields at all. */
  lemma NoMatchNoFields(text: string)
    requires Fnc1 !in text
    requires forall q :: !MatchStartsAt(text, q)
    ensures ParseGS1(text) == map[]
  {
  }

  /** A later segment with the same code overwrites an earlier one. */
  lemma LaterSegmentWins(parts: seq<string>, k: string, v1: string, v2: string)
    requires k in Kept && |k| == 2
    ensures Collect(parts + [k + v1, k + v2]) == Collect(parts)[k := Trim(v2)]
  {
    var all := parts + [k + v1, k + v2];
    assert all[..|all| - 1] == parts + [k + v1];
    assert (parts + [k + v1])[..|parts|] == parts;
    assert Code(k + v2) == k && (k + v2)[2..] == v2;
    assert Code(k + v1) == k;
  }

  const Expired: string := " (¡Vencido!)"
  const BadFormat: string := " (Formato inválido)"

  /** `parseInt('20' + yy)`. */
  function ScriptYear(v: string): nat
    requires IsSixDigits(v)
  {
    DigitsValue("20" + v[..2])
  }

  /** The suffix for a six-digit date: expired, or `(Vence: d/m/yyyy)` unpadded. */
  function ExpiryNote(v: string, isPast: bool): string
    requires IsSixDigits(v)
  {
    if isPast then Expired
    else
      " (Vence: " + NatToString(DigitsValue(v[4..6])) + "/" + NatToString(DigitsValue(v[2..4]))
      + "/" + NatToString(ScriptYear(v)) + ")"
  }

  /**
   * `validateFields`: a non-empty AI 17 gets exactly one note appended, and
   * nothing else changes. Whether the date lies before now is `isPast`.
   */
  function ValidateFields(fields: map<string, string>, isPast: bool): (r: map<string, string>)
    ensures r.Keys == fields.Keys
    ensures forall k :: k in fields && k != "17" ==> r[k] == fields[k]
    ensures ("17" !in fields || fields["17"] == "") ==> r == fields
    ensures "17" in fields && fields["17"] != "" ==>
      var v := fields["17"];
      && |r["17"]| > |v| && r["17"][..|v|] == v
      && (r["17"][|v|..] == BadFormat <==> !IsSixDigits(v))
      && (r["17"][|v|..] == Expired <==> IsSixDigits(v) && isPast)
      && (IsSixDigits(v) && !isPast ==> r["17"] == v + ExpiryNote(v, false))
  {
    if "17" in fields && fields["17"] != "" then
      var v := fields["17"];
      var note := if IsSixDigits(v) then ExpiryNote(v, isPast) else BadFormat;
      assert IsSixDigits(v) && !isPast ==> note[2] == 'V';
      assert (v + note)[..|v|] == v && (v + note)[|v|..] == note;
      fields["17" := v + note]
    else fields
  }

  /** The year of the note is always 20YY: four digits reading back as 2000 plus YY. */
  lemma ScriptYearIs20YY(v: string)
    requires IsSixDigits(v)
    ensures ScriptYear(v) == 2000 + DigitsValue(v[..2])
    ensures |NatToString(ScriptYear(v))| == 4
    ensures DigitsValue(NatToString(ScriptYear(v))) == 2000 + DigitsValue(v[..2])
  {
    DigitsValueConcat("20", v[..2]);
    assert DigitsValue("20") == 20 by {
      assert "20"[..1] == "2";
    }
    DigitsValueBound(v[..2]);
    NatToStringLength(ScriptYear(v));
    DigitsValueOfNatToString(ScriptYear(v));
  }

  /**
   * `note` is `(Vence: d/m/y)` with `d` and `m` the day and month of `v`
   * written without padding and `y` the four-digit year 20YY.
   */
  ghost predicate ShowsDate(note: string, v: string, d: string, m: string, y: string)
    requires IsSixDigits(v)
  {
    && note == " (Vence: " + d + "/" + m + "/" + y + ")"
    && AllDigits(d) && DigitsValue(d) == DigitsValue(v[4..6])
    && AllDigits(m) && DigitsValue(m) == DigitsValue(v[2..4])
    && 1 <= |d| && (|d| == 1 || d[0] != '0')
    && 1 <= |m| && (|m| == 1 || m[0] != '0')
    && |y| == 4 && AllDigits(y) && DigitsValue(y) == 2000 + DigitsValue(v[..2])
  }

  /**
   * The day and month of the note read back as the date's own digits: the
   * note shows them without padding.
   */
  lemma ExpiryNoteReadsBack(v: string)
    requires IsSixDigits(v)
    ensures exists d, m, y :: ShowsDate(ExpiryNote(v, false), v, d, m, y)
  {
    var d := NatToString(DigitsValue(v[4..6]));
    var m := NatToString(DigitsValue(v[2..4]));
    var y := NatToString(ScriptYear(v));
    DigitsValueOfNatToString(DigitsValue(v[4..6]));
    DigitsValueOfNatToString(DigitsValue(v[2..4]));
    ScriptYearIs20YY(v);
    assert ShowsDate(ExpiryNote(v, false), v, d, m, y);
  }
}
