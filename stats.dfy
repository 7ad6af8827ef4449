/** The aggregates `get_variant_stats` derives from a variant collection,
    as functions of the collection, with the facts relating them. */
module Stats {
  import opened Variants

  datatype VariantStats = VariantStats(
    total: nat,
    byTechnique: map<Technique, nat>,
    avgSimilarity: real,
    uniqueUnicodePoints: nat)

  /** Number of entries produced by technique `t`. */
  function CountTechnique(vs: seq<EmailVariant>, t: Technique): (n: nat)
    ensures n <= |vs|
  {
    if |vs| == 0 then 0
    else CountTechnique(vs[..|vs| - 1], t) + (if vs[|vs| - 1].technique == t then 1 else 0)
  }

  function PointSet(ps: seq<int>): set<int>
  {
    set k | 0 <= k < |ps| :: ps[k]
  }

  /** Union of the introduced code points of all entries. */
  function PointsUnion(vs: seq<EmailVariant>): set<int>
  {
    if |vs| == 0 then {}
    else PointsUnion(vs[..|vs| - 1]) + PointSet(vs[|vs| - 1].unicodePoints)
  }

  /** Sum of the similarity scores. */
  function SimilaritySum(vs: seq<EmailVariant>): real
  {
    if |vs| == 0 then 0.0
    else SimilaritySum(vs[..|vs| - 1]) + vs[|vs| - 1].visualSimilarity
  }

  /** The four technique counts add up to the number of entries. */
  lemma {:induction false} CountsSumToTotal(vs: seq<EmailVariant>)
    ensures CountTechnique(vs, Homograph) + CountTechnique(vs, ZeroWidth)
          + CountTechnique(vs, Mixed) + CountTechnique(vs, Punycode) == |vs|
    decreases |vs|
  {
    if |vs| > 0 {
      CountsSumToTotal(vs[..|vs| - 1]);
    }
  }

  /** A technique has a positive count exactly when some entry uses it. */
  lemma {:induction false} CountPositive(vs: seq<EmailVariant>, t: Technique)
    ensures CountTechnique(vs, t) > 0 <==> exists k :: 0 <= k < |vs| && vs[k].technique == t
    decreases |vs|
  {
    if |vs| > 0 {
      var init := vs[..|vs| - 1];
      CountPositive(init, t);
      if exists k :: 0 <= k < |init| && init[k].technique == t {
        var k :| 0 <= k < |init| && init[k].technique == t;
        assert vs[k] == init[k];
      }
      if exists k :: 0 <= k < |vs| && vs[k].technique == t {
        var k :| 0 <= k < |vs| && vs[k].technique == t;
        if k < |init| { assert init[k] == vs[k]; }
      }
    }
  }

  /** The union holds exactly the code points some entry introduced. */
  lemma {:induction false} PointsUnionMeaning(vs: seq<EmailVariant>, p: int)
    ensures p in PointsUnion(vs) <==> exists k :: 0 <= k < |vs| && p in vs[k].unicodePoints
    decreases |vs|
  {
    if |vs| > 0 {
      var init := vs[..|vs| - 1];
      PointsUnionMeaning(init, p);
      if exists k :: 0 <= k < |init| && p in init[k].unicodePoints {
        var k :| 0 <= k < |init| && p in init[k].unicodePoints;
        assert vs[k] == init[k];
      }
      if exists k :: 0 <= k < |vs| && p in vs[k].unicodePoints {
        var k :| 0 <= k < |vs| && p in vs[k].unicodePoints;
        if k < |init| { assert init[k] == vs[k]; }
      }
    }
  }

  /** With every score in [0, 1], the sum lies in [0, |vs|], so the average
      lies in [0, 1]. */
  lemma {:induction false} SimilaritySumBounds(vs: seq<EmailVariant>)
    requires forall k :: 0 <= k < |vs| ==> 0.0 <= vs[k].visualSimilarity <= 1.0
    ensures 0.0 <= SimilaritySum(vs) <= |vs| as real
    decreases |vs|
  {
    if |vs| > 0 {
      SimilaritySumBounds(vs[..|vs| - 1]);
    }
  }

  lemma {:induction false} CountConcat(a: seq<EmailVariant>, b: seq<EmailVariant>, t: Technique)
    ensures CountTechnique(a + b, t) == CountTechnique(a, t) + CountTechnique(b, t)
    decreases |b|
  {
    if |b| == 0 {
      assert a + b == a;
    } else {
      assert (a + b)[..|a + b| - 1] == a + b[..|b| - 1];
      CountConcat(a, b[..|b| - 1], t);
    }
  }

  /** A collection whose entries all use technique `t0` counts `|vs|` for it
      and zero for every other technique. */
  lemma {:induction false} CountUniform(vs: seq<EmailVariant>, t0: Technique, t: Technique)
    requires forall k :: 0 <= k < |vs| ==> vs[k].technique == t0
    ensures CountTechnique(vs, t) == if t == t0 then |vs| else 0
    decreases |vs|
  {
    if |vs| > 0 {
      CountUniform(vs[..|vs| - 1], t0, t);
    }
  }
}
