/** Derivation of the embedding column name from a model identifier, shared
    by both embedding jobs: `embedded_` followed by the model id with every
    character outside `[a-zA-Z0-9_]` replaced by `_`, then lower-cased. */
module ColumnNames {
  import opened Common

  const Prefix: string := "embedded_"

  /** The regular-expression class `[a-zA-Z0-9_]`. */
  predicate IsIdentChar(c: char) {
    IsUpper(c) || IsLower(c) || IsDigit(c) || c == '_'
  }

  /** The characters a derived column name is made of: `[a-z0-9_]`. */
  predicate IsColumnChar(c: char) {
    IsLower(c) || IsDigit(c) || c == '_'
  }

  /** `replace(/[^a-zA-Z0-9_]/g, '_')`. */
  function Sanitize(id: string): string {
    seq(|id|, i requires 0 <= i < |id| => if IsIdentChar(id[i]) then id[i] else '_')
  }

  /** The `EMBEDDING_COLUMN` constant of both embedding jobs. */
  function ColumnName(modelId: string): (name: string)
    ensures |name| == |Prefix| + |modelId|
    ensures name[..|Prefix|] == Prefix
    ensures forall i :: 0 <= i < |name| ==> IsColumnChar(name[i])
    ensures forall i :: 0 <= i < |modelId| && IsIdentChar(modelId[i]) ==>
              name[|Prefix| + i] == LowerChar(modelId[i])
    ensures forall i :: 0 <= i < |modelId| && !IsIdentChar(modelId[i]) ==>
              name[|Prefix| + i] == '_'
  {
    var safe := Sanitize(modelId);
    var lower := ToLower(safe);
    assert forall i :: 0 <= i < |lower| ==> lower[i] == LowerChar(safe[i]);
    Prefix + lower
  }

  /** Deriving again from the part after the prefix gives the same name: a
      derived name is already a safe, lower-case identifier. */
  lemma ColumnNameIdempotent(modelId: string)
    ensures ColumnName(ColumnName(modelId)[|Prefix|..]) == ColumnName(modelId)
  {
    var suffix := ColumnName(modelId)[|Prefix|..];
    assert forall i :: 0 <= i < |suffix| ==> IsColumnChar(suffix[i]) by {
      forall i | 0 <= i < |suffix| ensures IsColumnChar(suffix[i]) {
        assert suffix[i] == ColumnName(modelId)[|Prefix| + i];
      }
    }
    assert Sanitize(suffix) == suffix;
    ToLowerNoUpper(suffix);
  }

  /** The default id of the Gemini job. */
  lemma GeminiColumnName()
    ensures ColumnName("gemini-embedding-001") == Prefix + "gemini_embedding_001"
  {
    SafePart("gemini-embedding-001", "gemini_embedding_001");
  }

  /** The default id of the local job. */
  lemma LocalColumnName()
    ensures ColumnName("Xenova/all-MiniLM-L6-v2") == Prefix + "xenova_all_minilm_l6_v2"
  {
    SafePart("Xenova/all-MiniLM-L6-v2", "xenova_all_minilm_l6_v2");
  }

  /** The id quoted in the local job's comment, taken in two parts. */
  lemma CommentColumnName()
    ensures ColumnName("onnx-community/embeddinggemma-300m-ONNX")
            == "embedded_onnx_community_embeddinggemma_300m_onnx"
  {
    var a, b := "onnx-community/", "embeddinggemma-300m-ONNX";
    SafePart(a, "onnx_community_");
    SafePart(b, "embeddinggemma_300m_onnx");
    SanitizeLowerConcat(a, b);
    SplitLiterals();
  }

  lemma SplitLiterals()
    ensures "onnx-community/embeddinggemma-300m-ONNX"
            == "onnx-community/" + "embeddinggemma-300m-ONNX"
    ensures "embedded_onnx_community_embeddinggemma_300m_onnx"
            == "embedded_" + "onnx_community_" + "embeddinggemma_300m_onnx"
  {
    SplitId();
    SplitName();
  }

  lemma SplitId()
    ensures "onnx-community/embeddinggemma-300m-ONNX"
            == "onnx-community/" + "embeddinggemma-300m-ONNX"
  {
  }

  lemma SplitName()
    ensures "embedded_onnx_community_embeddinggemma_300m_onnx"
            == "embedded_" + "onnx_community_" + "embeddinggemma_300m_onnx"
  {
  }

  lemma SafePart(a: string, e: string)
    requires |a| == |e|
    requires forall i :: 0 <= i < |a| ==> LowerChar(if IsIdentChar(a[i]) then a[i] else '_') == e[i]
    ensures ToLower(Sanitize(a)) == e
  {
  }

  lemma SanitizeLowerConcat(a: string, b: string)
    ensures ToLower(Sanitize(a + b)) == ToLower(Sanitize(a)) + ToLower(Sanitize(b))
  {
  }

  /** The character of the column name that one model-id character gives. */
  function ColumnChar(c: char): char {
    LowerChar(if IsIdentChar(c) then c else '_')
  }

  lemma NameAt(modelId: string, i: nat)
    requires i < |modelId|
    ensures ColumnName(modelId)[|Prefix| + i] == ColumnChar(modelId[i])
  {
  }

  /** Two model ids share one column exactly when they have the same length
      and agree position by position up to letter case, with every unsafe
      character standing for `_`. */
  lemma ColumnNameCollision(a: string, b: string)
    ensures ColumnName(a) == ColumnName(b) <==>
            |a| == |b| && forall i :: 0 <= i < |a| ==> ColumnChar(a[i]) == ColumnChar(b[i])
  {
    var na, nb := ColumnName(a), ColumnName(b);
    if na == nb {
      forall i | 0 <= i < |a| ensures ColumnChar(a[i]) == ColumnChar(b[i]) {
        NameAt(a, i);
        NameAt(b, i);
      }
    }
    if |a| == |b| && forall i :: 0 <= i < |a| ==> ColumnChar(a[i]) == ColumnChar(b[i]) {
      forall j | 0 <= j < |na| ensures na[j] == nb[j] {
        if j < |Prefix| {
          assert na[j] == na[..|Prefix|][j] && nb[j] == nb[..|Prefix|][j];
        } else {
          NameAt(a, j - |Prefix|);
          NameAt(b, j - |Prefix|);
        }
      }
    }
  }

  /** For instance, an id with capitals and `-` and one with `_` and `/`
      in their places share one column. */
  lemma ColumnNameCollisionExample()
    ensures ColumnName("Gemini-Embedding-001") == ColumnName("gemini_embedding/001")
  {
    SafePart("Gemini-Embedding-001", "gemini_embedding_001");
    SafePart("gemini_embedding/001", "gemini_embedding_001");
  }
}
