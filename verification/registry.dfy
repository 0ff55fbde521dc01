/**
 * The GS1 Application Identifier tables of scanner.js: the description
 * table, the fixed-length table, the variable-length list, the FNC1
 * separator, and the label lookup with its three decimal-indicator families
 * (310d net weight, 392d and 393d amounts payable).
 */
module Gs1Registry {
  import opened JsString

  /** FNC1 as it appears in scanned text: the ASCII group separator. */
  const Fnc1: char := '\U{1D}'

  const Descriptions: map<string, string> := map[
    "00" := "SSCC", "01" := "GTIN", "02" := "GTIN Contenido", "10" := "Lote",
    "11" := "Fecha Producción", "13" := "Fecha Empaquetado", "15" := "Fecha Cons. Pref.",
    "17" := "Fecha Caducidad", "21" := "Número de Serie", "240" := "ID Artículo Adicional",
    "241" := "ID Cliente", "30" := "Cantidad Variable", "37" := "Cantidad (Unidades)",
    "310" := "Peso Neto (kg)", "392" := "Precio Pagar (Variable)", "393" := "Precio Pagar (ISO)",
    "400" := "Nº Pedido Cliente", "410" := "Expedido a (GLN)", "414" := "GLN Localización",
    "8005" := "Precio Unidad", "90" := "Info. Mutua Acordada"
  ]

  /** Exact value length of the fixed-length AIs. */
  const FixedLengths: map<string, nat> := map[
    "00" := 18, "01" := 14, "02" := 14, "11" := 6, "13" := 6, "15" := 6, "17" := 6,
    "410" := 13, "414" := 13, "8005" := 6
  ]

  const VariableLengthAIs: seq<string> := ["10", "21", "90", "240", "241", "400"]

  const Unknown: string := "Desconocido"

  /** The 2-, 3- and 4-digit codes listed in the description table, by length. */
  const TwoDigitCodes: set<string> := {"00", "01", "02", "10", "11", "13", "15", "17", "21", "30", "37", "90"}
  const ThreeDigitCodes: set<string> := {"240", "241", "310", "392", "393", "400", "410", "414"}
  const FourDigitCodes: set<string> := {"8005"}

  /**
   * The tokenizer's acceptance test (beyond being all digits): listed in
   * the description table, the fixed-length table or the variable-length list.
   */
  predicate IsKnown(code: string) {
    code in Descriptions || code in FixedLengths || code in VariableLengthAIs
  }

  predicate IsFixed(code: string) {
    code in FixedLengths
  }

  /** `/^<prefix>\d$/`: a three-digit family prefix followed by one digit. */
  predicate InFamily(code: string, prefix: string) {
    |code| == 4 && code[..3] == prefix && IsDigit(code[3])
  }

  /**
   * The label `getGS1Description` gives an AI: the table entry, the
   * family label carrying the decimal-place digit, or "Desconocido".
   */
  function Description(ai: string): (r: string)
    ensures ai in Descriptions ==> r == Descriptions[ai]
    ensures ai !in Descriptions && InFamily(ai, "310") ==> r == "Peso Neto (kg) - " + [ai[3]] + " dec"
    ensures ai !in Descriptions && InFamily(ai, "392") ==> r == "Precio Pagar (Var) - " + [ai[3]] + " dec"
    ensures ai !in Descriptions && InFamily(ai, "393") ==> r == "Precio Pagar (ISO) - " + [ai[3]] + " dec"
    ensures r == Unknown <==>
      ai !in Descriptions && !InFamily(ai, "310") && !InFamily(ai, "392") && !InFamily(ai, "393")
  {
    if ai in Descriptions then Descriptions[ai]
    else if InFamily(ai, "310") then "Peso Neto (kg) - " + [ai[3]] + " dec"
    else if InFamily(ai, "392") then "Precio Pagar (Var) - " + [ai[3]] + " dec"
    else if InFamily(ai, "393") then "Precio Pagar (ISO) - " + [ai[3]] + " dec"
    else Unknown
  }

  /** The decimal-place count a family AI's label reports, read back from the label. */
  function LabelDecimals(text: string): char
    requires |text| >= 5
  {
    text[|text| - 5]
  }

  /**
   * A family label carries the AI's fourth digit, so the decimal-place count
   * can be recovered from the label alone.
   */
  lemma FamilyLabelCarriesDecimals(ai: string)
    requires InFamily(ai, "310") || InFamily(ai, "392") || InFamily(ai, "393")
    ensures ai !in Descriptions
    ensures |Description(ai)| >= 5 && LabelDecimals(Description(ai)) == ai[3]
    ensures Description(ai) != Unknown
  {
    assert ai[0] == '3' by { assert ai[..3][0] == ai[0]; }
    forall c | c in Descriptions && |c| == 4
      ensures c[0] == '8'
    {
      KnownByLength(c);
    }
  }

  /** Every entry of the fixed and variable tables also has a description. */
  lemma KnownIsDescribed(code: string)
    ensures IsKnown(code) <==> code in Descriptions
  {
    if code in VariableLengthAIs {
      var k :| 0 <= k < |VariableLengthAIs| && VariableLengthAIs[k] == code;
    }
  }

  lemma KnownByLength(code: string)
    requires code in Descriptions
    ensures |code| == 2 ==> code in TwoDigitCodes
    ensures |code| == 3 ==> code in ThreeDigitCodes
    ensures |code| == 4 ==> code in FourDigitCodes
    ensures 2 <= |code| <= 4 && AllDigits(code)
  {
  }

  /** The listed codes, sorted by length, are exactly the three sets. */
  lemma CodesByLength()
    ensures Descriptions.Keys == TwoDigitCodes + ThreeDigitCodes + FourDigitCodes
  {
  }

  /**
   * No known code is a proper prefix of another one. Because of this the
   * longest-candidate-first search can never take a short code for the
   * first part of a longer one.
   */
  lemma PrefixFree(a: string, b: string)
    requires IsKnown(a) && IsKnown(b) && |a| < |b|
    ensures b[..|a|] != a
  {
    KnownIsDescribed(a);
    KnownIsDescribed(b);
    KnownByLength(a);
    KnownByLength(b);
    assert b[..|a|][0] == b[0] && b[..|a|][1] == b[1];
    if |a| == 2 {
      assert b[0] != a[0] || b[1] != a[1];
    } else {
      assert b[..|a|][2] == b[2];
      assert b[0] != a[0] || b[1] != a[1] || b[2] != a[2];
    }
  }

  /** The 310d numeric post-processing can never see a tokenized key. */
  lemma KnownIsNoFamily(code: string)
    requires IsKnown(code)
    ensures !InFamily(code, "310") && !InFamily(code, "392") && !InFamily(code, "393")
  {
    KnownIsDescribed(code);
    KnownByLength(code);
    if |code| == 4 {
      assert code[0] == '8' && code[..3][0] == code[0];
    }
  }
}
