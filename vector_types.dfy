/** The text form of a pgvector column type: `vector(N)` as the schema
    manager writes it in `ADD COLUMN` and as the type introspection prints it,
    and the anchored, case-insensitive pattern `^vector\((\d+)\)$` with which
    `ensureEmbeddingColumn` reads it back. */
module VectorTypes {
  import opened Common

  predicate AllDigits(ds: string) {
    forall i :: 0 <= i < |ds| ==> IsDigit(ds[i])
  }

  function DigitValue(c: char): nat
    requires IsDigit(c)
  {
    c as int - '0' as int
  }

  function DigitChar(d: nat): (c: char)
    requires d < 10
    ensures IsDigit(c) && DigitValue(c) == d
  {
    ('0' as int + d) as char
  }

  /** The decimal value of a digit string (`Number` of the captured group). */
  function DigitsValue(ds: string): nat
    requires AllDigits(ds)
    decreases |ds|
  {
    if ds == [] then 0 else DigitsValue(ds[..|ds| - 1]) * 10 + DigitValue(ds[|ds| - 1])
  }

  /** The decimal numeral of `n` (template-literal interpolation of a number). */
  function Decimal(n: nat): (ds: string)
    ensures ds != [] && AllDigits(ds)
    ensures DigitsValue(ds) == n
    decreases n
  {
    if n < 10 then [DigitChar(n)]
    else
      var ds := Decimal(n / 10) + [DigitChar(n % 10)];
      assert ds[..|ds| - 1] == Decimal(n / 10);
      ds
  }

  /** `vector(${dim})`. */
  function VectorTypeName(dim: nat): string {
    "vector(" + Decimal(dim) + ")"
  }

  /** The width `/^vector\((\d+)\)$/i` captures, or None when the type text
      does not match: `vector` in any letter case, `(`, one or more decimal
      digits, `)`, and nothing before or after. */
  function ParseVectorWidth(t: string): Option<nat> {
    if |t| >= 9 && ToLower(t[..7]) == "vector(" && t[|t| - 1] == ')'
       && AllDigits(t[7..|t| - 1])
    then Some(DigitsValue(t[7..|t| - 1]))
    else None
  }

  /** The type text the schema manager writes is read back as its width. */
  lemma ParseVectorTypeName(dim: nat)
    ensures ParseVectorWidth(VectorTypeName(dim)) == Some(dim)
  {
    var t := VectorTypeName(dim);
    assert t[..7] == "vector(";
    assert t[7..|t| - 1] == Decimal(dim);
  }

  /** Every text of the accepted shape is accepted, with the value of its
      digits (leading zeros and any letter case included). */
  lemma ParseAcceptsShape(word: string, ds: string)
    requires |word| == 6 && ToLower(word) == "vector"
    requires ds != [] && AllDigits(ds)
    ensures ParseVectorWidth(word + "(" + ds + ")") == Some(DigitsValue(ds))
  {
    var t := word + "(" + ds + ")";
    assert t[..7] == word + "(";
    assert ToLower(t[..7]) == ToLower(word) + "(";
    assert t[7..|t| - 1] == ds;
  }

  /** Only texts of that shape are accepted: anything else is an
      incompatible type. */
  lemma ParseOnlyShape(t: string)
    requires ParseVectorWidth(t).Some?
    ensures exists word, ds :: |word| == 6 && ToLower(word) == "vector" && ds != [] && AllDigits(ds)
                               && t == word + "(" + ds + ")"
                               && ParseVectorWidth(t) == Some(DigitsValue(ds))
  {
    var word, ds := t[..6], t[7..|t| - 1];
    assert ToLower(t[..7])[..6] == ToLower(word);
    assert t == word + "(" + ds + ")";
  }

  /** Texts the pattern refuses: other types, a missing or empty width, and
      anything around the anchored pattern. */
  lemma ParseRejects()
    ensures ParseVectorWidth("text") == None
    ensures ParseVectorWidth("vector") == None
    ensures ParseVectorWidth("vector()") == None
    ensures ParseVectorWidth("vector(3) ") == None
    ensures ParseVectorWidth("halfvec(3)") == None
    ensures ParseVectorWidth("vector(-3)") == None
  {
    assert ToLower("halfvec(3)"[..7])[0] == 'h';
    assert "vector(-3)"[7..9][0] == '-';
  }
}
