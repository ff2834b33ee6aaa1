/** Derivation of a retrieval cache key from the parameters of a retrieval request
    (`generate_retrieval_cache_key`). Every parameter is rendered as text, fed in a fixed
    order into a 64-bit streaming hash (xxh64), and the hexadecimal digest is appended to
    the namespace prefix. The hash itself is a parameter: nothing is assumed about it. */
module CacheKey {
  import opened CacheConfig
  import StableSort

  datatype Option<T> = None | Some(value: T)

  /** The 16 lower-case hexadecimal characters of a 64-bit digest. */
  predicate IsHexDigest(s: string)
  {
    |s| == 16 && forall i :: 0 <= i < |s| ==> s[i] in "0123456789abcdef"
  }

  type HexDigest = s: string | IsHexDigest(s) witness "0000000000000000"

  /** A 64-bit hash that sees the UTF-8 encoding of its text argument and returns
      `hexdigest()`. Streaming updates hash the concatenation of what was fed. */
  type Hasher = string -> HexDigest

  /** The parameters of a retrieval request. Floats are given as the text Python's
      `str()` renders for them; `docIds` and `rerankId` may be absent (`None`). */
  datatype RetrievalQuery = RetrievalQuery(
    question: string,
    kbIds: seq<string>,
    docIds: Option<seq<string>>,
    page: int,
    size: int,
    similarityThreshold: string,
    vectorSimilarityWeight: string,
    top: int,
    rerankId: Option<string>,
    highlight: bool,
    tenantId: string)

  // ---------------------------------------------------------------------------
  // Python's ordering of strings: code point by code point, a proper prefix first.

  predicate StrLe(a: string, b: string)
  {
    if a == [] then true
    else if b == [] then false
    else if a[0] != b[0] then a[0] < b[0]
    else StrLe(a[1..], b[1..])
  }

  lemma {:induction false} StrLeTotal(a: string, b: string)
    ensures StrLe(a, b) || StrLe(b, a)
  {
    if a != [] && b != [] && a[0] == b[0] {
      StrLeTotal(a[1..], b[1..]);
    }
  }

  lemma {:induction false} StrLeTransitive(a: string, b: string, c: string)
    requires StrLe(a, b) && StrLe(b, c)
    ensures StrLe(a, c)
  {
    if a != [] && b != [] && c != [] && a[0] == b[0] && b[0] == c[0] {
      StrLeTransitive(a[1..], b[1..], c[1..]);
    }
  }

  lemma {:induction false} StrLeAntisymmetric(a: string, b: string)
    requires StrLe(a, b) && StrLe(b, a)
    ensures a == b
  {
    if a != [] && b != [] {
      StrLeAntisymmetric(a[1..], b[1..]);
      assert a == [a[0]] + a[1..] && b == [b[0]] + b[1..];
    }
  }

  /** String order is a total order: no two distinct strings tie. */
  lemma StrLeTotalOrder()
    ensures StableSort.TotalPreorder(StrLe) && StableSort.Antisymmetric(StrLe)
  {
    forall a, b ensures StrLe(a, b) || StrLe(b, a) {
      StrLeTotal(a, b);
    }
    forall a, b, c | StrLe(a, b) && StrLe(b, c) ensures StrLe(a, c) {
      StrLeTransitive(a, b, c);
    }
    forall a, b | StrLe(a, b) && StrLe(b, a) ensures a == b {
      StrLeAntisymmetric(a, b);
    }
  }

  /** `sorted(xs)` on a list of strings. */
  function SortedIds(xs: seq<string>): seq<string>
  {
    StableSort.SortBy(xs, StrLe)
  }

  /** `sorted(ids)` is ascending and depends only on the multiset of identifiers. */
  lemma SortedIdsCanonical(xs: seq<string>, ys: seq<string>)
    requires multiset(xs) == multiset(ys)
    ensures SortedIds(xs) == SortedIds(ys)
    ensures StableSort.SortedBy(SortedIds(xs), StrLe)
  {
    StrLeTotalOrder();
    StableSort.SortByCanonical(xs, ys, StrLe);
    StableSort.SortBySorted(xs, StrLe);
  }

  // ---------------------------------------------------------------------------
  // Python's `str()` of each parameter.

  function DigitChar(d: nat): char
    requires d < 10
  {
    "0123456789"[d]
  }

  function NatText(n: nat): string
  {
    if n < 10 then [DigitChar(n)] else NatText(n / 10) + [DigitChar(n % 10)]
  }

  /** `str(n)` of an int: decimal digits, a leading '-' when negative. */
  function IntText(n: int): string
  {
    if n < 0 then "-" + NatText(-n) else NatText(n)
  }

  function BoolText(b: bool): string
  {
    if b then "True" else "False"
  }

  /** `str(x)` of an optional string: the string itself, or "None". */
  function OptionText(x: Option<string>): string
  {
    match x
    case None => "None"
    case Some(s) => s
  }

  /** `str(xs)` of a list of strings: `['a', 'b']` (quote selection and escaping of
      Python's `repr` are not modelled). */
  function ListText(xs: seq<string>): string
  {
    "[" + ItemsText(xs) + "]"
  }

  function ItemsText(xs: seq<string>): string
  {
    if xs == [] then ""
    else if |xs| == 1 then "'" + xs[0] + "'"
    else "'" + xs[0] + "', " + ItemsText(xs[1..])
  }

  /** `sorted(doc_ids) if doc_ids else []`: an absent or empty list becomes `[]`. */
  function NormalizedDocIds(docIds: Option<seq<string>>): seq<string>
  {
    match docIds
    case None => []
    case Some(ds) => if ds == [] then [] else SortedIds(ds)
  }

  /** The eleven texts fed to the hasher, in the order the key derivation feeds them. */
  function Fields(q: RetrievalQuery): (fs: seq<string>)
    ensures |fs| == 11
  {
    [ q.question,
      ListText(SortedIds(q.kbIds)),
      ListText(NormalizedDocIds(q.docIds)),
      IntText(q.page),
      IntText(q.size),
      q.similarityThreshold,
      q.vectorSimilarityWeight,
      IntText(q.top),
      OptionText(q.rerankId),
      BoolText(q.highlight),
      q.tenantId ]
  }

  /** The order of the knowledge-base and document identifiers does not matter,
      and an absent document list is the same as an empty one. */
  lemma FieldsNormalizeIds(q: RetrievalQuery, kbIds: seq<string>, docIds: seq<string>)
    requires multiset(kbIds) == multiset(q.kbIds)
    requires q.docIds.Some? ==> multiset(docIds) == multiset(q.docIds.value)
    requires q.docIds.None? ==> docIds == []
    ensures Fields(q.(kbIds := kbIds, docIds := Some(docIds))) == Fields(q)
  {
    SortedIdsCanonical(kbIds, q.kbIds);
    match q.docIds
    case None =>
    case Some(ds) =>
      SortedIdsCanonical(docIds, ds);
      assert docIds == [] <==> ds == [] by {
        assert |multiset(docIds)| == |docIds| && |multiset(ds)| == |ds|;
      }
  }

  // ---------------------------------------------------------------------------
  // The key as the source derives it: the field texts concatenated with no delimiter.

  function Concat(fs: seq<string>): string
  {
    if fs == [] then "" else fs[0] + Concat(fs[1..])
  }

  function KeyAsWritten(xxh64: Hasher, q: RetrievalQuery): (key: string)
    ensures |key| == |RETRIEVAL_CACHE_PREFIX| + 16
    ensures key[..|RETRIEVAL_CACHE_PREFIX|] == RETRIEVAL_CACHE_PREFIX
  {
    RETRIEVAL_CACHE_PREFIX + xxh64(Concat(Fields(q)))
  }

  lemma ConcatTwo(fs: seq<string>)
    requires |fs| >= 2
    ensures Concat(fs) == (fs[0] + fs[1]) + Concat(fs[2..])
  {
    assert fs[1..][1..] == fs[2..];
  }

  /** Texts that agree on a prefix and whose remainders concatenate alike concatenate alike. */
  lemma {:induction false} ConcatSamePrefix(f1: seq<string>, f2: seq<string>, i: nat)
    requires i <= |f1| && i <= |f2| && f1[..i] == f2[..i]
    requires Concat(f1[i..]) == Concat(f2[i..])
    ensures Concat(f1) == Concat(f2)
  {
    if i == 0 {
      assert f1[0..] == f1 && f2[0..] == f2;
    } else {
      assert f1[0] == f1[..i][0] && f2[0] == f2[..i][0];
      assert f1[1..][..i - 1] == f1[..i][1..] && f2[1..][..i - 1] == f2[..i][1..];
      assert f1[1..][i - 1..] == f1[i..] && f2[1..][i - 1..] == f2[i..];
      ConcatSamePrefix(f1[1..], f2[1..], i - 1);
    }
  }

  /** Moving the boundary between the fourth and fifth texts leaves the concatenation alone. */
  lemma ConcatShiftBoundary(f1: seq<string>, f2: seq<string>)
    requires |f1| >= 5 && |f2| >= 5
    requires f1[..3] == f2[..3] && f1[5..] == f2[5..]
    requires f1[3] + f1[4] == f2[3] + f2[4]
    ensures Concat(f1) == Concat(f2)
  {
    ConcatTwo(f1[3..]);
    ConcatTwo(f2[3..]);
    assert f1[3..][2..] == f1[5..] && f2[3..][2..] == f2[5..];
    ConcatSamePrefix(f1, f2, 3);
  }

  /** Because field texts are not delimited, two requests that differ in both page and
      size feed the hasher the same text ("1" + "23" == "12" + "3") and so share a key,
      whatever the hash. */
  lemma PageSizeCollision(xxh64: Hasher, q: RetrievalQuery)
    ensures q.(page := 1, size := 23) != q.(page := 12, size := 3)
    ensures KeyAsWritten(xxh64, q.(page := 1, size := 23)) == KeyAsWritten(xxh64, q.(page := 12, size := 3))
  {
    var f1, f2 := Fields(q.(page := 1, size := 23)), Fields(q.(page := 12, size := 3));
    assert f1[3] + f1[4] == "123" == f2[3] + f2[4] by {
      assert IntText(1) == "1" && IntText(23) == "23";
      assert IntText(12) == "12" && IntText(3) == "3";
    }
    assert f1[5..] == f2[5..];
    assert f1[..3] == f2[..3];
    ConcatShiftBoundary(f1, f2);
  }

  // ---------------------------------------------------------------------------
  // The corrected key: every field text is escaped and terminated by a separator
  // before hashing, so the hashed text determines the field texts.

  const ESCAPE: char := '\\'
  const SEPARATOR: char := ';'

  function Escape(f: string): string
  {
    if f == [] then ""
    else (if f[0] == ESCAPE || f[0] == SEPARATOR then [ESCAPE, f[0]] else [f[0]]) + Escape(f[1..])
  }

  /** Each field escaped and followed by the separator. */
  function Frame(fs: seq<string>): string
  {
    if fs == [] then "" else Escape(fs[0]) + [SEPARATOR] + Frame(fs[1..])
  }

  /** Reads framed text back into fields; `current` is the field read so far. */
  function Unframe(t: string, current: string): seq<string>
    decreases |t|
  {
    if t == [] then []
    else if t[0] == ESCAPE && |t| >= 2 then Unframe(t[2..], current + [t[1]])
    else if t[0] == SEPARATOR then [current] + Unframe(t[1..], "")
    else Unframe(t[1..], current + [t[0]])
  }

  /** Reading one escaped character (or one plain character) into the current field. */
  lemma UnframeStep(c: char, u: string, current: string)
    ensures Unframe((if c == ESCAPE || c == SEPARATOR then [ESCAPE, c] else [c]) + u, current)
         == Unframe(u, current + [c])
  {
    var t := (if c == ESCAPE || c == SEPARATOR then [ESCAPE, c] else [c]) + u;
    if c == ESCAPE || c == SEPARATOR {
      assert t[0] == ESCAPE && t[1] == c && t[2..] == u;
    } else {
      assert t[0] == c && t[1..] == u;
    }
  }

  lemma {:induction false} UnframeField(f: string, rest: string, current: string)
    ensures Unframe(Escape(f) + [SEPARATOR] + rest, current) == [current + f] + Unframe(rest, "")
  {
    if f == [] {
      assert Escape(f) + [SEPARATOR] + rest == [SEPARATOR] + rest;
      assert ([SEPARATOR] + rest)[1..] == rest;
      assert current + f == current;
    } else {
      var c := f[0];
      var head := if c == ESCAPE || c == SEPARATOR then [ESCAPE, c] else [c];
      var u := Escape(f[1..]) + [SEPARATOR] + rest;
      assert Escape(f) + [SEPARATOR] + rest == head + u;
      UnframeStep(c, u, current);
      UnframeField(f[1..], rest, current + [c]);
      assert current + [c] + f[1..] == current + f;
    }
  }

  /** Framing is undone by reading the text back: the fields are recovered exactly. */
  lemma {:induction false} FrameRoundTrip(fs: seq<string>)
    ensures Unframe(Frame(fs), "") == fs
  {
    if fs != [] {
      FrameRoundTrip(fs[1..]);
      UnframeField(fs[0], Frame(fs[1..]), "");
      assert "" + fs[0] == fs[0];
      assert Frame(fs) == Escape(fs[0]) + [SEPARATOR] + Frame(fs[1..]);
      assert fs == [fs[0]] + fs[1..];
    }
  }

  lemma FrameInjective(fs: seq<string>, gs: seq<string>)
    requires Frame(fs) == Frame(gs)
    ensures fs == gs
  {
    FrameRoundTrip(fs);
    FrameRoundTrip(gs);
  }

  /** `generate_retrieval_cache_key`, with the fields framed before hashing. */
  function RetrievalCacheKey(xxh64: Hasher, q: RetrievalQuery): (key: string)
    ensures |key| == |RETRIEVAL_CACHE_PREFIX| + 16
    ensures key[..|RETRIEVAL_CACHE_PREFIX|] == RETRIEVAL_CACHE_PREFIX
  {
    RETRIEVAL_CACHE_PREFIX + xxh64(Frame(Fields(q)))
  }

  /** Two requests share a key only if they have the same field texts or the hash
      itself collides on two different inputs. */
  lemma SharedKeyMeansSameFieldsOrHashCollision(xxh64: Hasher, q1: RetrievalQuery, q2: RetrievalQuery)
    requires RetrievalCacheKey(xxh64, q1) == RetrievalCacheKey(xxh64, q2)
    ensures Fields(q1) == Fields(q2)
         || (Frame(Fields(q1)) != Frame(Fields(q2)) && xxh64(Frame(Fields(q1))) == xxh64(Frame(Fields(q2))))
  {
    var p := |RETRIEVAL_CACHE_PREFIX|;
    assert xxh64(Frame(Fields(q1))) == RetrievalCacheKey(xxh64, q1)[p..];
    assert xxh64(Frame(Fields(q2))) == RetrievalCacheKey(xxh64, q2)[p..];
    if Frame(Fields(q1)) == Frame(Fields(q2)) {
      FrameInjective(Fields(q1), Fields(q2));
    }
  }

  /** Permuting the knowledge-base or document identifiers leaves the key unchanged,
      and an absent document list gives the key of an empty one; both for the key as
      written and for the corrected key. */
  lemma KeyIgnoresIdOrder(xxh64: Hasher, q: RetrievalQuery, kbIds: seq<string>, docIds: seq<string>)
    requires multiset(kbIds) == multiset(q.kbIds)
    requires q.docIds.Some? ==> multiset(docIds) == multiset(q.docIds.value)
    requires q.docIds.None? ==> docIds == []
    ensures RetrievalCacheKey(xxh64, q.(kbIds := kbIds, docIds := Some(docIds))) == RetrievalCacheKey(xxh64, q)
    ensures KeyAsWritten(xxh64, q.(kbIds := kbIds, docIds := Some(docIds))) == KeyAsWritten(xxh64, q)
  {
    FieldsNormalizeIds(q, kbIds, docIds);
  }
}
