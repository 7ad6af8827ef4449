/** The variant engine itself: an object holding the set of variant strings
    generated so far, whose strategy methods extend that set in place. Each
    method is proved against the functions of `Variants` and `Generation`. */
module Engine {
  import opened Wrappers
  import opened PyStr
  import opened Confusables
  import opened Variants
  import opened Generation
  import opened Stats

  class VariantEngine {
    /** `generated_variants`: every variant string produced since the last
        reset, kept or not. */
    var generated: set<string>

    constructor()
      ensures generated == {}
    {
      generated := {};
    }

    /** `generate_all_variants`: resets the set, splits at the first '@'
        and assembles the four strategies' outputs under the bound. The
        result does not depend on what earlier calls generated. */
    method GenerateAllVariants(email: string, maxVariants: nat, idna: string -> Option<string>)
      returns (variants: seq<EmailVariant>)
      modifies this
      ensures variants == AllVariants(email, maxVariants, idna)
      ensures generated == match SplitEmail(email)
                           case None => {}
                           case Some((u, d)) => GeneratedStrings(u, d, idna)
    {
      generated := {};
      variants := [];
      if '@' !in email {
        return;
      }
      var k := IndexOf(email, '@').value;
      var username, domain := email[..k], email[k + 1..];
      assert SplitEmail(email) == Some((username, domain));
      var quota := maxVariants / 3;

      var homographs := GenerateHomographVariants(username, domain);
      assert homographs == HomographBlock(username, domain);
      assert generated == Strings(HomographPool(username, domain));
      variants := variants + Prefix(homographs, quota);
      var zeroWidth := GenerateZeroWidthVariants(username, domain);
      assert zeroWidth == ZeroWidthBlock(username, domain);
      assert generated == Strings(HomographPool(username, domain)) + Strings(ZeroWidthPool(username, domain));
      variants := variants + Prefix(zeroWidth, quota);
      var mixed := GenerateMixedVariants(username, domain);
      assert mixed == MixedBlock(username, domain);
      assert generated == Strings(HomographPool(username, domain)) + Strings(ZeroWidthPool(username, domain))
                          + Strings(MixedPool(username, domain));
      variants := variants + Prefix(mixed, quota);
      var punycode := GeneratePunycodeVariants(username, domain, idna);
      assert punycode == PunycodeBlock(username, domain, idna);
      assert generated == GeneratedStrings(username, domain, idna);
      variants := variants + punycode;
      assert [] + Prefix(homographs, quota) == Prefix(homographs, quota);
      variants := Prefix(variants, maxVariants);
    }

    /** `_generate_homograph_variants`: every position whose lower-case
        character is a key, every candidate of that key, in order. */
    method GenerateHomographVariants(username: string, domain: string) returns (variants: seq<EmailVariant>)
      modifies this
      ensures variants == Fresh(HomographPool(username, domain), old(generated))
      ensures generated == old(generated) + Strings(HomographPool(username, domain))
    {
      variants := [];
      ghost var done: seq<EmailVariant> := [];
      var i := 0;
      while i < |username|
        invariant 0 <= i <= |username|
        invariant done == HomographCandidates(username, domain, i)
        invariant variants == Fresh(done, old(generated))
        invariant generated == old(generated) + Strings(done)
      {
        ghost var here := HomographsAt(username, domain, i);
        assert HomographCandidates(username, domain, i + 1) == done + here;
        variants := RecordHomographsAt(username, domain, i, variants, done, old(generated));
        done := done + here;
        i := i + 1;
      }
    }

    /** The inner loop of `_generate_homograph_variants`: the candidates of
        the key at position `i`, with the case rule applied, recorded in
        order. */
    method RecordHomographsAt(username: string, domain: string, i: nat, variants: seq<EmailVariant>,
                              ghost done: seq<EmailVariant>, ghost seen: set<string>)
      returns (kept: seq<EmailVariant>)
      modifies this
      requires i < |username|
      requires variants == Fresh(done, seen) && generated == seen + Strings(done)
      ensures kept == Fresh(done + HomographsAt(username, domain, i), seen)
      ensures generated == seen + Strings(done + HomographsAt(username, domain, i))
    {
      kept := variants;
      var c := username[i];
      if IsKey(Lower(c)) {
        var candidates := CandidatesOf(Lower(c));
        ghost var acc := done;
        var j := 0;
        while j < |candidates|
          invariant 0 <= j <= |candidates|
          invariant acc == done + HomographsFor(username, domain, i, candidates[..j])
          invariant kept == Fresh(acc, seen)
          invariant generated == seen + Strings(acc)
        {
          var h := ChooseCase(c, candidates[j]);
          var v := EmailVariant(Address(username, domain), Address(Substitute(username, i, [h]), domain),
                                Homograph, [h as int], 0.95);
          assert v == HomographVariant(username, domain, i, candidates[j]);
          kept := Record(v, kept, acc, seen);
          HomographsForSnoc(username, domain, i, candidates, j);
          AppendAssoc(done, HomographsFor(username, domain, i, candidates[..j]), [v]);
          acc := acc + [v];
          j := j + 1;
        }
        PrefixFull(candidates);
      } else {
        assert done + HomographsAt(username, domain, i) == done;
      }
    }

    /** `_generate_zero_width_variants`: every position, every zero-width
        character, inserted before the character at that position. */
    method GenerateZeroWidthVariants(username: string, domain: string) returns (variants: seq<EmailVariant>)
      modifies this
      ensures variants == Fresh(ZeroWidthPool(username, domain), old(generated))
      ensures generated == old(generated) + Strings(ZeroWidthPool(username, domain))
    {
      variants := [];
      ghost var done: seq<EmailVariant> := [];
      var i := 0;
      while i < |username|
        invariant 0 <= i <= |username|
        invariant done == ZeroWidthCandidates(username, domain, i)
        invariant variants == Fresh(done, old(generated))
        invariant generated == old(generated) + Strings(done)
      {
        ghost var here := ZeroWidthAt(username, domain, i);
        assert ZeroWidthCandidates(username, domain, i + 1) == done + here;
        variants := RecordZeroWidthAt(username, domain, i, variants, done, old(generated));
        done := done + here;
        i := i + 1;
      }
    }

    /** The inner loop of `_generate_zero_width_variants`: each zero-width
        character inserted before position `i`, recorded in order. */
    method RecordZeroWidthAt(username: string, domain: string, i: nat, variants: seq<EmailVariant>,
                             ghost done: seq<EmailVariant>, ghost seen: set<string>)
      returns (kept: seq<EmailVariant>)
      modifies this
      requires i < |username|
      requires variants == Fresh(done, seen) && generated == seen + Strings(done)
      ensures kept == Fresh(done + ZeroWidthAt(username, domain, i), seen)
      ensures generated == seen + Strings(done + ZeroWidthAt(username, domain, i))
    {
      kept := variants;
      ghost var acc := done;
      var j := 0;
      while j < |ZeroWidthChars|
        invariant 0 <= j <= |ZeroWidthChars|
        invariant acc == done + ZeroWidthFor(username, domain, i, ZeroWidthChars[..j])
        invariant kept == Fresh(acc, seen)
        invariant generated == seen + Strings(acc)
      {
        var z := ZeroWidthChars[j];
        var v := EmailVariant(Address(username, domain), Address(InsertBefore(username, i, z), domain),
                              ZeroWidth, [z as int], 1.0);
        kept := Record(v, kept, acc, seen);
        ZeroWidthForSnoc(username, domain, i, ZeroWidthChars, j);
        AppendAssoc(done, ZeroWidthFor(username, domain, i, ZeroWidthChars[..j]), [v]);
        acc := acc + [v];
        j := j + 1;
      }
      PrefixFull(ZeroWidthChars);
    }

    /** `_generate_mixed_variants`: the first three positions whose
        lower-case character is a key, the first candidate followed by each
        of the first two zero-width characters. */
    method GenerateMixedVariants(username: string, domain: string) returns (variants: seq<EmailVariant>)
      modifies this
      ensures variants == Fresh(MixedPool(username, domain), old(generated))
      ensures generated == old(generated) + Strings(MixedPool(username, domain))
    {
      variants := [];
      ghost var done: seq<EmailVariant> := [];
      var n := if |username| < 3 then |username| else 3;
      var i := 0;
      while i < n
        invariant 0 <= i <= n
        invariant done == MixedCandidates(username, domain, i)
        invariant variants == Fresh(done, old(generated))
        invariant generated == old(generated) + Strings(done)
      {
        ghost var here := MixedAt(username, domain, i);
        assert MixedCandidates(username, domain, i + 1) == done + here;
        variants := RecordMixedAt(username, domain, i, variants, done, old(generated));
        done := done + here;
        i := i + 1;
      }
    }

    /** The inner loop of `_generate_mixed_variants`: if the lower-case
        character at position `i` is a key, its first candidate followed by
        each of the first two zero-width characters replaces it. */
    method RecordMixedAt(username: string, domain: string, i: nat, variants: seq<EmailVariant>,
                         ghost done: seq<EmailVariant>, ghost seen: set<string>)
      returns (kept: seq<EmailVariant>)
      modifies this
      requires i < |username| && i < 3
      requires variants == Fresh(done, seen) && generated == seen + Strings(done)
      ensures kept == Fresh(done + MixedAt(username, domain, i), seen)
      ensures generated == seen + Strings(done + MixedAt(username, domain, i))
    {
      kept := variants;
      var c := username[i];
      if IsKey(Lower(c)) {
        TableShape(Lower(c));
        var h := CandidatesOf(Lower(c))[0];
        assert h == FirstConfusable(Lower(c));
        var zs := ZeroWidthChars[..2];
        ghost var acc := done;
        var j := 0;
        while j < |zs|
          invariant 0 <= j <= |zs|
          invariant acc == done + MixedFor(username, domain, i, h, zs[..j])
          invariant kept == Fresh(acc, seen)
          invariant generated == seen + Strings(acc)
        {
          var z := zs[j];
          var v := EmailVariant(Address(username, domain), Address(Substitute(username, i, [h, z]), domain),
                                Mixed, [h as int, z as int], 0.90);
          kept := Record(v, kept, acc, seen);
          MixedForSnoc(username, domain, i, h, zs, j);
          AppendAssoc(done, MixedFor(username, domain, i, h, zs[..j]), [v]);
          acc := acc + [v];
          j := j + 1;
        }
        PrefixFull(zs);
      } else {
        assert done + MixedAt(username, domain, i) == done;
      }
    }

    /** `_generate_punycode_variants`: for a domain of at least two labels,
        the first three positions of the first label whose lower-case
        character is a key get its first candidate; a domain the encoder
        accepts yields a variant, one it rejects is skipped. */
    method GeneratePunycodeVariants(username: string, domain: string, idna: string -> Option<string>)
      returns (variants: seq<EmailVariant>)
      modifies this
      ensures variants == Fresh(PunycodeCandidates(username, domain, idna), old(generated))
      ensures generated == old(generated) + Strings(PunycodeCandidates(username, domain, idna))
    {
      variants := [];
      var labels := Split(domain, '.');
      if |labels| < 2 {
        assert PunycodeCandidates(username, domain, idna) == [];
        assert Strings([]) == {};
        return;
      }
      var sub := labels[0];
      var n := if |sub| < 3 then |sub| else 3;
      assert PunycodeCandidates(username, domain, idna) == PunycodeCandidatesUpTo(username, domain, labels, n, idna);
      ghost var done: seq<EmailVariant> := [];
      var i := 0;
      while i < n
        invariant 0 <= i <= n
        invariant done == PunycodeCandidatesUpTo(username, domain, labels, i, idna)
        invariant variants == Fresh(done, old(generated))
        invariant generated == old(generated) + Strings(done)
      {
        ghost var here := PunycodeAt(username, domain, labels, i, idna);
        assert PunycodeCandidatesUpTo(username, domain, labels, i + 1, idna) == done + here;
        variants := RecordPunycodeAt(username, domain, labels, i, idna, variants, done, old(generated));
        done := done + here;
        i := i + 1;
      }
    }

    /** The body of the loop of `_generate_punycode_variants`: position `i`
        of the first label, if its lower-case character is a key, gets the
        key's first candidate; the domain is re-joined and encoded, and an
        encoding failure skips the position. */
    method RecordPunycodeAt(username: string, domain: string, labels: seq<string>, i: nat,
                            idna: string -> Option<string>, variants: seq<EmailVariant>,
                            ghost done: seq<EmailVariant>, ghost seen: set<string>)
      returns (kept: seq<EmailVariant>)
      modifies this
      requires labels == Split(domain, '.') && |labels| >= 2 && i < |labels[0]| && i < 3
      requires variants == Fresh(done, seen) && generated == seen + Strings(done)
      ensures kept == Fresh(done + PunycodeAt(username, domain, labels, i, idna), seen)
      ensures generated == seen + Strings(done + PunycodeAt(username, domain, labels, i, idna))
    {
      ghost var here := PunycodeAt(username, domain, labels, i, idna);
      kept := variants;
      var c := labels[0][i];
      if IsKey(Lower(c)) {
        TableShape(Lower(c));
        var h := CandidatesOf(Lower(c))[0];
        assert h == FirstConfusable(Lower(c));
        var substituted := Join([Substitute(labels[0], i, [h])] + labels[1..], '.');
        match idna(substituted)
        case Some(encoded) =>
          var v := EmailVariant(Address(username, domain), Address(username, encoded), Punycode, [h as int], 0.85);
          assert here == [v];
          kept := Record(v, kept, done, seen);
        case None =>
          assert here == [];
          assert done + here == done;
      } else {
        assert here == [];
        assert done + here == done;
      }
    }

    /** The step every strategy repeats: a candidate whose string has not
        been generated yet is recorded and kept, any other is dropped. */
    method Record(v: EmailVariant, variants: seq<EmailVariant>, ghost done: seq<EmailVariant>, ghost seen: set<string>)
      returns (kept: seq<EmailVariant>)
      modifies this
      requires variants == Fresh(done, seen) && generated == seen + Strings(done)
      ensures kept == Fresh(done + [v], seen)
      ensures generated == seen + Strings(done + [v])
    {
      FreshStep(done, v, seen, generated, variants);
      kept := variants;
      if v.variant !in generated {
        generated := generated + {v.variant};
        kept := variants + [v];
      }
    }

    /** `get_variant_stats`: the total, the count per technique (only the
        techniques that occur), the mean similarity (0.0 for no variants)
        and the number of distinct introduced code points. */
    method GetVariantStats(variants: seq<EmailVariant>) returns (stats: VariantStats)
      ensures stats.total == |variants|
      ensures forall t :: t in stats.byTechnique <==> CountTechnique(variants, t) > 0
      ensures forall t :: t in stats.byTechnique ==> stats.byTechnique[t] == CountTechnique(variants, t)
      ensures stats.uniqueUnicodePoints == |PointsUnion(variants)|
      ensures stats.avgSimilarity == if |variants| == 0 then 0.0 else SimilaritySum(variants) / (|variants| as real)
    {
      var byTechnique: map<Technique, nat> := map[];
      var points: set<int> := {};
      var sum := 0.0;
      var k := 0;
      while k < |variants|
        invariant 0 <= k <= |variants|
        invariant forall t :: t in byTechnique <==> CountTechnique(variants[..k], t) > 0
        invariant forall t :: t in byTechnique ==> byTechnique[t] == CountTechnique(variants[..k], t)
        invariant points == PointsUnion(variants[..k])
        invariant sum == SimilaritySum(variants[..k])
      {
        var v := variants[k];
        assert variants[..k + 1][..k] == variants[..k];
        var count := if v.technique in byTechnique then byTechnique[v.technique] else 0;
        byTechnique := byTechnique[v.technique := count + 1];
        points := points + PointSet(v.unicodePoints);
        sum := sum + v.visualSimilarity;
        k := k + 1;
      }
      assert variants[..k] == variants;
      var avg := if |variants| > 0 then sum / (|variants| as real) else sum;
      stats := VariantStats(|variants|, byTechnique, avg, |points|);
    }
  }
}
