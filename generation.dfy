/** What one call of `generate_all_variants` returns, as a function of the
    email, the bound and the IDNA encoder, with the properties the engine
    promises about it. */
module Generation {
  import opened Wrappers
  import opened PyStr
  import opened Confusables
  import opened Variants
  import opened Stats

  /** `email.split('@', 1)`, or `None` for an email without '@'. */
  function SplitEmail(email: string): (r: Option<(string, string)>)
    ensures r.None? <==> '@' !in email
    ensures r.Some? ==> email == Address(r.value.0, r.value.1) && '@' !in r.value.0
  {
    match IndexOf(email, '@')
    case None => None
    case Some(k) =>
      assert email == email[..k] + "@" + email[k + 1..];
      Some((email[..k], email[k + 1..]))
  }

  /** Splitting is undone by `Address`, and vice versa for a username
      without '@' (the domain may hold further '@' characters). */
  lemma SplitAddress(u: string, d: string)
    requires '@' !in u
    ensures SplitEmail(Address(u, d)) == Some((u, d))
  {
    IndexOfAfterPrefix(u, '@', d);
    var e := Address(u, d);
    assert e[..|u|] == u && e[|u| + 1..] == d;
  }

  // The four blocks in generation order. Each strategy sees, as already
  // generated, the strings of every candidate of the strategies before it.

  function HomographPool(u: string, d: string): seq<EmailVariant>
  {
    HomographCandidates(u, d, |u|)
  }

  function ZeroWidthPool(u: string, d: string): seq<EmailVariant>
  {
    ZeroWidthCandidates(u, d, |u|)
  }

  function MixedPool(u: string, d: string): seq<EmailVariant>
  {
    MixedCandidates(u, d, if |u| < 3 then |u| else 3)
  }

  function HomographBlock(u: string, d: string): seq<EmailVariant>
  {
    Fresh(HomographPool(u, d), {})
  }

  function ZeroWidthBlock(u: string, d: string): seq<EmailVariant>
  {
    Fresh(ZeroWidthPool(u, d), Strings(HomographPool(u, d)))
  }

  function MixedBlock(u: string, d: string): seq<EmailVariant>
  {
    Fresh(MixedPool(u, d), Strings(HomographPool(u, d)) + Strings(ZeroWidthPool(u, d)))
  }

  function PunycodeBlock(u: string, d: string, idna: string -> Option<string>): seq<EmailVariant>
  {
    Fresh(PunycodeCandidates(u, d, idna),
          Strings(HomographPool(u, d)) + Strings(ZeroWidthPool(u, d)) + Strings(MixedPool(u, d)))
  }

  /** The strings generated by one call: every candidate string of the four
      strategies, kept or not. */
  function GeneratedStrings(u: string, d: string, idna: string -> Option<string>): set<string>
  {
    Strings(HomographPool(u, d)) + Strings(ZeroWidthPool(u, d)) + Strings(MixedPool(u, d))
      + Strings(PunycodeCandidates(u, d, idna))
  }

  /** The first three blocks cut to a third of the bound each, the fourth
      appended uncut, the whole cut to the bound. */
  function Assemble(h: seq<EmailVariant>, z: seq<EmailVariant>, m: seq<EmailVariant>, p: seq<EmailVariant>,
                    maxVariants: nat): seq<EmailVariant>
  {
    var quota := maxVariants / 3;
    Prefix(Prefix(h, quota) + Prefix(z, quota) + Prefix(m, quota) + p, maxVariants)
  }

  function Generate(u: string, d: string, maxVariants: nat, idna: string -> Option<string>): seq<EmailVariant>
  {
    Assemble(HomographBlock(u, d), ZeroWidthBlock(u, d), MixedBlock(u, d), PunycodeBlock(u, d, idna), maxVariants)
  }

  /** The result of `generate_all_variants(email, max_variants)`. */
  function AllVariants(email: string, maxVariants: nat, idna: string -> Option<string>): (r: seq<EmailVariant>)
    ensures |r| <= maxVariants
    ensures '@' !in email ==> r == []
  {
    match SplitEmail(email)
    case None => []
    case Some((u, d)) => Generate(u, d, maxVariants, idna)
  }

  // ---------------------------------------------------------------------
  // Uniqueness

  lemma DistinctConcat(a: seq<EmailVariant>, b: seq<EmailVariant>)
    requires Distinct(a) && Distinct(b) && Strings(a) !! Strings(b)
    ensures Distinct(a + b)
  {
    var r := a + b;
    forall x, y | 0 <= x < y < |r| ensures r[x].variant != r[y].variant {
      if y >= |a| && x < |a| {
        assert r[x].variant in Strings(a);
        assert r[y] == b[y - |a|];
        assert r[y].variant in Strings(b);
      } else if x >= |a| {
        assert r[x] == b[x - |a|] && r[y] == b[y - |a|];
      }
    }
  }

  /** The strings of a de-duplicated block avoid `seen` and lie within the
      candidates' strings. */
  lemma FreshStrings(cands: seq<EmailVariant>, seen: set<string>)
    ensures Strings(Fresh(cands, seen)) !! seen
    ensures Strings(Fresh(cands, seen)) <= Strings(cands)
  {
    FreshSound(cands, seen);
    var r := Fresh(cands, seen);
    forall s | s in Strings(r) ensures s !in seen && s in Strings(cands) {
      var k :| 0 <= k < |r| && r[k].variant == s;
      var j :| 0 <= j < |cands| && cands[j] == r[k];
    }
  }

  lemma {:induction false} AssembleDistinct(h: seq<EmailVariant>, z: seq<EmailVariant>, m: seq<EmailVariant>,
                                             p: seq<EmailVariant>, maxVariants: nat)
    requires Distinct(h) && Distinct(z) && Distinct(m) && Distinct(p)
    requires Strings(h) !! Strings(z) && Strings(h) !! Strings(m) && Strings(h) !! Strings(p)
    requires Strings(z) !! Strings(m) && Strings(z) !! Strings(p) && Strings(m) !! Strings(p)
    ensures Distinct(Assemble(h, z, m, p, maxVariants))
  {
    var q := maxVariants / 3;
    var h', z', m' := Prefix(h, q), Prefix(z, q), Prefix(m, q);
    StringsPrefix(h, |h'|);
    StringsPrefix(z, |z'|);
    StringsPrefix(m, |m'|);
    DistinctConcat(h', z');
    StringsConcat(h', z');
    DistinctConcat(h' + z', m');
    StringsConcat(h' + z', m');
    DistinctConcat(h' + z' + m', p);
    var all := h' + z' + m' + p;
    var r := Prefix(all, maxVariants);
    assert forall x, y :: 0 <= x < y < |r| ==> r[x] == all[x] && r[y] == all[y];
  }

  /** Within one call, no two returned variants share a variant string. */
  lemma GenerateDistinct(u: string, d: string, maxVariants: nat, idna: string -> Option<string>)
    ensures Distinct(Generate(u, d, maxVariants, idna))
  {
    var s1 := Strings(HomographPool(u, d));
    var s2 := s1 + Strings(ZeroWidthPool(u, d));
    var s3 := s2 + Strings(MixedPool(u, d));
    FreshStrings(HomographPool(u, d), {});
    FreshStrings(ZeroWidthPool(u, d), s1);
    FreshStrings(MixedPool(u, d), s2);
    FreshStrings(PunycodeCandidates(u, d, idna), s3);
    FreshSound(HomographPool(u, d), {});
    FreshSound(ZeroWidthPool(u, d), s1);
    FreshSound(MixedPool(u, d), s2);
    FreshSound(PunycodeCandidates(u, d, idna), s3);
    AssembleDistinct(HomographBlock(u, d), ZeroWidthBlock(u, d), MixedBlock(u, d), PunycodeBlock(u, d, idna), maxVariants);
  }

  /** All returned variant strings are pairwise distinct. */
  lemma AllVariantsDistinct(email: string, maxVariants: nat, idna: string -> Option<string>)
    ensures Distinct(AllVariants(email, maxVariants, idna))
  {
    match SplitEmail(email)
    case None =>
    case Some((u, d)) => GenerateDistinct(u, d, maxVariants, idna);
  }

  // ---------------------------------------------------------------------
  // Quotas and order

  function Rank(t: Technique): nat
  {
    match t
    case Homograph => 0
    case ZeroWidth => 1
    case Mixed => 2
    case Punycode => 3
  }

  function Min(a: int, b: int): int
  {
    if a <= b then a else b
  }

  lemma FreshUniform(cands: seq<EmailVariant>, seen: set<string>, t: Technique)
    requires forall k :: 0 <= k < |cands| ==> cands[k].technique == t
    ensures forall k :: 0 <= k < |Fresh(cands, seen)| ==> Fresh(cands, seen)[k].technique == t
  {
    FreshSound(cands, seen);
    var r := Fresh(cands, seen);
    forall k | 0 <= k < |r| ensures r[k].technique == t {
      var j :| 0 <= j < |cands| && cands[j] == r[k];
    }
  }

  lemma BlocksUniform(u: string, d: string, idna: string -> Option<string>)
    ensures forall k :: 0 <= k < |HomographBlock(u, d)| ==> HomographBlock(u, d)[k].technique == Homograph
    ensures forall k :: 0 <= k < |ZeroWidthBlock(u, d)| ==> ZeroWidthBlock(u, d)[k].technique == ZeroWidth
    ensures forall k :: 0 <= k < |MixedBlock(u, d)| ==> MixedBlock(u, d)[k].technique == Mixed
    ensures forall k :: 0 <= k < |PunycodeBlock(u, d, idna)| ==> PunycodeBlock(u, d, idna)[k].technique == Punycode
  {
    var s1 := Strings(HomographPool(u, d));
    var s2 := s1 + Strings(ZeroWidthPool(u, d));
    HomographCandidatesMeaning(u, d, |u|);
    ZeroWidthCandidatesMeaning(u, d, |u|);
    MixedCandidatesMeaning(u, d, if |u| < 3 then |u| else 3);
    PunycodeCandidatesMeaning(u, d, idna);
    FreshUniform(HomographPool(u, d), {}, Homograph);
    FreshUniform(ZeroWidthPool(u, d), s1, ZeroWidth);
    FreshUniform(MixedPool(u, d), s2, Mixed);
    FreshUniform(PunycodeCandidates(u, d, idna), s2 + Strings(MixedPool(u, d)), Punycode);
  }

  /** The assembled list is the three cut blocks followed by as much of the
      fourth as the bound leaves room for. */
  lemma AssembleLayout(h: seq<EmailVariant>, z: seq<EmailVariant>, m: seq<EmailVariant>, p: seq<EmailVariant>,
                       maxVariants: nat)
    ensures var q := maxVariants / 3;
            var lead := Prefix(h, q) + Prefix(z, q) + Prefix(m, q);
            |lead| <= maxVariants
            && Assemble(h, z, m, p, maxVariants) == lead + Prefix(p, maxVariants - |lead|)
  {
    var q := maxVariants / 3;
    var lead := Prefix(h, q) + Prefix(z, q) + Prefix(m, q);
    assert |lead| <= 3 * q <= maxVariants;
    var all := lead + p;
    assert Prefix(all, maxVariants) == lead + Prefix(p, maxVariants - |lead|);
  }

  lemma AssembleQuotas(h: seq<EmailVariant>, z: seq<EmailVariant>, m: seq<EmailVariant>, p: seq<EmailVariant>,
                       maxVariants: nat)
    requires forall k :: 0 <= k < |h| ==> h[k].technique == Homograph
    requires forall k :: 0 <= k < |z| ==> z[k].technique == ZeroWidth
    requires forall k :: 0 <= k < |m| ==> m[k].technique == Mixed
    requires forall k :: 0 <= k < |p| ==> p[k].technique == Punycode
    ensures var r := Assemble(h, z, m, p, maxVariants);
            var q := maxVariants / 3;
            && CountTechnique(r, Homograph) == Min(|h|, q)
            && CountTechnique(r, ZeroWidth) == Min(|z|, q)
            && CountTechnique(r, Mixed) == Min(|m|, q)
            && CountTechnique(r, Punycode) == Min(|p|, maxVariants - Min(|h|, q) - Min(|z|, q) - Min(|m|, q))
  {
    var q := maxVariants / 3;
    var h', z', m' := Prefix(h, q), Prefix(z, q), Prefix(m, q);
    var lead := h' + z' + m';
    var p' := Prefix(p, maxVariants - |lead|);
    var r := Assemble(h, z, m, p, maxVariants);
    AssembleLayout(h, z, m, p, maxVariants);
    assert r == lead + p';
    forall t ensures CountTechnique(r, t)
                     == CountTechnique(h', t) + CountTechnique(z', t) + CountTechnique(m', t) + CountTechnique(p', t) {
      CountConcat(h', z', t);
      CountConcat(h' + z', m', t);
      CountConcat(lead, p', t);
    }
    forall t ensures CountTechnique(h', t) == (if t == Homograph then |h'| else 0)
                  && CountTechnique(z', t) == (if t == ZeroWidth then |z'| else 0)
                  && CountTechnique(m', t) == (if t == Mixed then |m'| else 0)
                  && CountTechnique(p', t) == (if t == Punycode then |p'| else 0) {
      CountUniform(h', Homograph, t);
      CountUniform(z', ZeroWidth, t);
      CountUniform(m', Mixed, t);
      CountUniform(p', Punycode, t);
    }
  }

  lemma AssembleOrder(h: seq<EmailVariant>, z: seq<EmailVariant>, m: seq<EmailVariant>, p: seq<EmailVariant>,
                      maxVariants: nat)
    requires forall k :: 0 <= k < |h| ==> h[k].technique == Homograph
    requires forall k :: 0 <= k < |z| ==> z[k].technique == ZeroWidth
    requires forall k :: 0 <= k < |m| ==> m[k].technique == Mixed
    requires forall k :: 0 <= k < |p| ==> p[k].technique == Punycode
    ensures var r := Assemble(h, z, m, p, maxVariants);
            forall a, b :: 0 <= a < b < |r| ==> Rank(r[a].technique) <= Rank(r[b].technique)
  {
    var q := maxVariants / 3;
    var h', z', m' := Prefix(h, q), Prefix(z, q), Prefix(m, q);
    var lead := h' + z' + m';
    var r := Assemble(h, z, m, p, maxVariants);
    AssembleLayout(h, z, m, p, maxVariants);
    forall k | 0 <= k < |r|
      ensures Rank(r[k].technique)
              == if k < |h'| then 0 else if k < |h'| + |z'| then 1 else if k < |lead| then 2 else 3
    {
      if k < |h'| { assert r[k] == h[k]; }
      else if k < |h'| + |z'| { assert r[k] == z[k - |h'|]; }
      else if k < |lead| { assert r[k] == m[k - |h'| - |z'|]; }
      else { assert r[k] == p[k - |lead|]; }
    }
  }

  /** The result lists homograph, zero-width, mixed and punycode variants in
      this order; each of the first three techniques keeps at most a third of
      the bound, and the punycode block is cut only by the bound itself. */
  lemma GenerateQuotas(u: string, d: string, maxVariants: nat, idna: string -> Option<string>)
    ensures var r := Generate(u, d, maxVariants, idna);
            var q := maxVariants / 3;
            && CountTechnique(r, Homograph) == Min(|HomographBlock(u, d)|, q)
            && CountTechnique(r, ZeroWidth) == Min(|ZeroWidthBlock(u, d)|, q)
            && CountTechnique(r, Mixed) == Min(|MixedBlock(u, d)|, q)
            && CountTechnique(r, Punycode)
               == Min(|PunycodeBlock(u, d, idna)|,
                      maxVariants - Min(|HomographBlock(u, d)|, q) - Min(|ZeroWidthBlock(u, d)|, q)
                                  - Min(|MixedBlock(u, d)|, q))
    ensures var r := Generate(u, d, maxVariants, idna);
            forall a, b :: 0 <= a < b < |r| ==> Rank(r[a].technique) <= Rank(r[b].technique)
  {
    BlocksUniform(u, d, idna);
    AssembleQuotas(HomographBlock(u, d), ZeroWidthBlock(u, d), MixedBlock(u, d), PunycodeBlock(u, d, idna), maxVariants);
    AssembleOrder(HomographBlock(u, d), ZeroWidthBlock(u, d), MixedBlock(u, d), PunycodeBlock(u, d, idna), maxVariants);
  }

  // ---------------------------------------------------------------------
  // What each returned variant is

  /** The meaning of a variant of `u@d`, by its technique. */
  ghost predicate IsVariantOf(v: EmailVariant, u: string, d: string, idna: string -> Option<string>)
  {
    match v.technique
    case Homograph => IsHomographOf(v, u, d)
    case ZeroWidth => IsZeroWidthOf(v, u, d)
    case Mixed => IsMixedOf(v, u, d)
    case Punycode => IsPunycodeOf(v, u, d, idna)
  }

  ghost predicate AllVariantsOf(vs: seq<EmailVariant>, u: string, d: string, idna: string -> Option<string>)
  {
    forall k :: 0 <= k < |vs| ==> IsVariantOf(vs[k], u, d, idna)
  }

  lemma FreshMeaning(cands: seq<EmailVariant>, seen: set<string>, u: string, d: string, idna: string -> Option<string>)
    requires AllVariantsOf(cands, u, d, idna)
    ensures AllVariantsOf(Fresh(cands, seen), u, d, idna)
  {
    FreshSound(cands, seen);
    var r := Fresh(cands, seen);
    forall k | 0 <= k < |r| ensures IsVariantOf(r[k], u, d, idna) {
      var j :| 0 <= j < |cands| && cands[j] == r[k];
    }
  }

  /** Every entry of the assembled list comes from one of the four blocks. */
  lemma AssembleMembers(h: seq<EmailVariant>, z: seq<EmailVariant>, m: seq<EmailVariant>, p: seq<EmailVariant>,
                        maxVariants: nat)
    ensures forall k :: 0 <= k < |Assemble(h, z, m, p, maxVariants)| ==>
              var v := Assemble(h, z, m, p, maxVariants)[k];
              v in h || v in z || v in m || v in p
  {
    var q := maxVariants / 3;
    var h', z', m' := Prefix(h, q), Prefix(z, q), Prefix(m, q);
    var all := h' + z' + m' + p;
    var r := Assemble(h, z, m, p, maxVariants);
    forall k | 0 <= k < |r| ensures r[k] in h || r[k] in z || r[k] in m || r[k] in p {
      assert r[k] == all[k];
      if k < |h'| { assert all[k] == h[k]; }
      else if k < |h'| + |z'| { assert all[k] == z[k - |h'|]; }
      else if k < |h'| + |z'| + |m'| { assert all[k] == m[k - |h'| - |z'|]; }
      else { assert all[k] == p[k - |h'| - |z'| - |m'|]; }
    }
  }

  lemma AssembleMeaning(h: seq<EmailVariant>, z: seq<EmailVariant>, m: seq<EmailVariant>, p: seq<EmailVariant>,
                        maxVariants: nat, u: string, d: string, idna: string -> Option<string>)
    requires AllVariantsOf(h, u, d, idna) && AllVariantsOf(z, u, d, idna)
    requires AllVariantsOf(m, u, d, idna) && AllVariantsOf(p, u, d, idna)
    ensures AllVariantsOf(Assemble(h, z, m, p, maxVariants), u, d, idna)
  {
    AssembleMembers(h, z, m, p, maxVariants);
    var r := Assemble(h, z, m, p, maxVariants);
    forall k | 0 <= k < |r| ensures IsVariantOf(r[k], u, d, idna) {
      var v := r[k];
      if v in h { var j :| 0 <= j < |h| && h[j] == v; }
      else if v in z { var j :| 0 <= j < |z| && z[j] == v; }
      else if v in m { var j :| 0 <= j < |m| && m[j] == v; }
      else { var j :| 0 <= j < |p| && p[j] == v; }
    }
  }

  /** Every returned variant is a variant of the split address in the sense
      of its technique. */
  lemma AllVariantsMeaning(email: string, maxVariants: nat, idna: string -> Option<string>, u: string, d: string)
    requires SplitEmail(email) == Some((u, d))
    ensures AllVariantsOf(AllVariants(email, maxVariants, idna), u, d, idna)
  {
    var s1 := Strings(HomographPool(u, d));
    var s2 := s1 + Strings(ZeroWidthPool(u, d));
    var s3 := s2 + Strings(MixedPool(u, d));
    PoolsMeaning(u, d, idna);
    FreshMeaning(HomographPool(u, d), {}, u, d, idna);
    FreshMeaning(ZeroWidthPool(u, d), s1, u, d, idna);
    FreshMeaning(MixedPool(u, d), s2, u, d, idna);
    FreshMeaning(PunycodeCandidates(u, d, idna), s3, u, d, idna);
    AssembleMeaning(HomographBlock(u, d), ZeroWidthBlock(u, d), MixedBlock(u, d), PunycodeBlock(u, d, idna),
                    maxVariants, u, d, idna);
  }

  lemma PoolsMeaning(u: string, d: string, idna: string -> Option<string>)
    ensures AllVariantsOf(HomographPool(u, d), u, d, idna)
    ensures AllVariantsOf(ZeroWidthPool(u, d), u, d, idna)
    ensures AllVariantsOf(MixedPool(u, d), u, d, idna)
    ensures AllVariantsOf(PunycodeCandidates(u, d, idna), u, d, idna)
  {
    HomographCandidatesMeaning(u, d, |u|);
    ZeroWidthCandidatesMeaning(u, d, |u|);
    MixedCandidatesMeaning(u, d, if |u| < 3 then |u| else 3);
    PunycodeCandidatesMeaning(u, d, idna);
  }

  // ---------------------------------------------------------------------
  // Block sizes and completeness

  /** At most six mixed and three punycode variants; no punycode variant for
      a single-label domain; nothing but punycode variants for an empty
      username. */
  lemma BlockBounds(u: string, d: string, idna: string -> Option<string>)
    ensures |MixedBlock(u, d)| <= 6
    ensures |PunycodeBlock(u, d, idna)| <= 3
    ensures '.' !in d ==> PunycodeBlock(u, d, idna) == []
    ensures |u| == 0 ==> HomographBlock(u, d) == [] && ZeroWidthBlock(u, d) == [] && MixedBlock(u, d) == []
  {
  }

  lemma HomographsAtContains(u: string, d: string, i: nat, h: char)
    requires i < |u| && IsKey(Lower(u[i])) && h in CandidatesOf(Lower(u[i]))
    ensures HomographVariant(u, d, i, h) in HomographsAt(u, d, i)
  {
    var hs := CandidatesOf(Lower(u[i]));
    var j :| 0 <= j < |hs| && hs[j] == h;
    HomographsForIndex(u, d, i, hs, j);
  }

  lemma {:induction false} HomographCandidatesContain(u: string, d: string, n: nat, i: nat, h: char)
    requires i < n <= |u| && IsKey(Lower(u[i])) && h in CandidatesOf(Lower(u[i]))
    ensures HomographVariant(u, d, i, h) in HomographCandidates(u, d, n)
    decreases n
  {
    var v := HomographVariant(u, d, i, h);
    var prev, here := HomographCandidates(u, d, n - 1), HomographsAt(u, d, n - 1);
    assert HomographCandidates(u, d, n) == prev + here;
    if i == n - 1 {
      HomographsAtContains(u, d, i, h);
    } else {
      HomographCandidatesContain(u, d, n - 1, i, h);
    }
  }

  /** Every (position, candidate) pair of the homograph strategy is
      represented in its output; repeated candidates collapse to one entry. */
  lemma HomographBlockComplete(u: string, d: string, i: nat, h: char)
    requires i < |u| && IsKey(Lower(u[i])) && h in CandidatesOf(Lower(u[i]))
    ensures Address(Substitute(u, i, [h]), d) in Strings(HomographBlock(u, d))
  {
    HomographCandidatesContain(u, d, |u|, i, h);
    HomographVariantMeaning(u, d, i, h);
    var v := HomographVariant(u, d, i, h);
    var k :| 0 <= k < |HomographPool(u, d)| && HomographPool(u, d)[k] == v;
    assert v.variant in Strings(HomographPool(u, d));
    FreshSound(HomographPool(u, d), {});
  }

  lemma {:induction false} ZeroWidthCandidatesContain(u: string, d: string, n: nat, i: nat, j: nat)
    requires i < n <= |u| && j < |ZeroWidthChars|
    ensures ZeroWidthVariant(u, d, i, ZeroWidthChars[j]) in ZeroWidthCandidates(u, d, n)
    decreases n
  {
    if i == n - 1 {
      ZeroWidthForIndex(u, d, i, ZeroWidthChars, j);
    } else {
      ZeroWidthCandidatesContain(u, d, n - 1, i, j);
    }
  }

  /** Homograph variants keep the length of the address, so they never
      suppress a zero-width variant: every (position, code point) pair of the
      zero-width strategy is represented in its output. */
  lemma ZeroWidthBlockComplete(u: string, d: string, i: nat, j: nat)
    requires i < |u| && j < |ZeroWidthChars|
    ensures Address(InsertBefore(u, i, ZeroWidthChars[j]), d) in Strings(ZeroWidthBlock(u, d))
  {
    var v := ZeroWidthVariant(u, d, i, ZeroWidthChars[j]);
    var pool := HomographPool(u, d);
    HomographCandidatesMeaning(u, d, |u|);
    forall k | 0 <= k < |pool| ensures pool[k].variant != v.variant {
      assert |pool[k].variant| == |Address(u, d)|;
    }
    ZeroWidthCandidatesContain(u, d, |u|, i, j);
    var k :| 0 <= k < |ZeroWidthPool(u, d)| && ZeroWidthPool(u, d)[k] == v;
    FreshSound(ZeroWidthPool(u, d), Strings(pool));
    assert v.variant in Strings(ZeroWidthPool(u, d));
  }

  // ---------------------------------------------------------------------
  // Concrete cases

  /** The first entry of a non-empty first block leads the assembled list. */
  lemma AssembleFirst(h: seq<EmailVariant>, z: seq<EmailVariant>, m: seq<EmailVariant>, p: seq<EmailVariant>,
                      maxVariants: nat)
    requires |h| >= 1 && maxVariants >= 3
    ensures |Assemble(h, z, m, p, maxVariants)| >= 1 && Assemble(h, z, m, p, maxVariants)[0] == h[0]
  {
    var q := maxVariants / 3;
    var all := Prefix(h, q) + Prefix(z, q) + Prefix(m, q) + p;
    assert all[0] == h[0];
  }

  lemma {:induction false} HomographCandidatesFirst(u: string, d: string, n: nat)
    requires 1 <= n <= |u| && |HomographsAt(u, d, 0)| >= 1
    ensures |HomographCandidates(u, d, n)| >= 1
    ensures HomographCandidates(u, d, n)[0] == HomographsAt(u, d, 0)[0]
    decreases n
  {
    if n == 1 {
      assert HomographCandidates(u, d, 1) == [] + HomographsAt(u, d, 0);
    } else {
      HomographCandidatesFirst(u, d, n - 1);
      assert HomographCandidates(u, d, n) == HomographCandidates(u, d, n - 1) + HomographsAt(u, d, n - 1);
    }
  }

  /** When the first username character has confusables, the homograph block
      starts with its first candidate substituted at position 0. */
  lemma HomographBlockFirst(u: string, d: string)
    requires |u| >= 1 && IsKey(Lower(u[0]))
    ensures |HomographBlock(u, d)| >= 1
    ensures HomographBlock(u, d)[0] == HomographVariant(u, d, 0, FirstConfusable(Lower(u[0])))
  {
    TableShape(Lower(u[0]));
    HomographsForIndex(u, d, 0, CandidatesOf(Lower(u[0])), 0);
    HomographCandidatesFirst(u, d, |u|);
    FreshFirst(HomographPool(u, d), {});
  }

  /** With a bound of at least three, the variant list of an address whose
      username starts with a character that has confusables begins with the
      first candidate substituted for that character. */
  lemma AllVariantsFirst(email: string, u: string, d: string, maxVariants: nat, idna: string -> Option<string>)
    requires SplitEmail(email) == Some((u, d)) && |u| >= 1 && IsKey(Lower(u[0])) && maxVariants >= 3
    ensures |AllVariants(email, maxVariants, idna)| >= 1
    ensures AllVariants(email, maxVariants, idna)[0] == HomographVariant(u, d, 0, FirstConfusable(Lower(u[0])))
  {
    HomographBlockFirst(u, d);
    AssembleFirst(HomographBlock(u, d), ZeroWidthBlock(u, d), MixedBlock(u, d), PunycodeBlock(u, d, idna), maxVariants);
  }

  /** `a@<domain>` with bound 10 starts with the Cyrillic a (U+0430)
      substituted for the Latin one. */
  lemma HomographExample(d: string, idna: string -> Option<string>)
    ensures |AllVariants("a@" + d, 10, idna)| >= 1
    ensures AllVariants("a@" + d, 10, idna)[0]
         == EmailVariant("a@" + d, "\U{0430}@" + d, Homograph, [0x430], 0.95)
  {
    var u := "a";
    assert Substitute(u, 0, ['\U{0430}']) == "\U{0430}";
    assert Address("\U{0430}", d) == "\U{0430}@" + d;
    assert "a@" + d == Address(u, d);
    SplitAddress(u, d);
    assert Find(0, 'a') == Some(TableList(0));
    assert FirstConfusable('a') == '\U{0430}';
    assert ChooseCase('a', '\U{0430}') == '\U{0430}';
    AllVariantsFirst("a@" + d, u, d, 10, idna);
  }
}
