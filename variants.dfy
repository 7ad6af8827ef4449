/** The variant record, the shared de-duplication discipline and the
    candidate lists of the four generation strategies, as functions of the
    split address. */
module Variants {
  import opened Wrappers
  import opened PyStr
  import opened Confusables

  datatype Technique = Homograph | ZeroWidth | Mixed | Punycode

  /** One generated address. `unicodePoints` holds the code points the
      strategy introduced, not those of the whole string. */
  datatype EmailVariant = EmailVariant(
    original: string,
    variant: string,
    technique: Technique,
    unicodePoints: seq<int>,
    visualSimilarity: real)

  function Address(username: string, domain: string): string
  {
    username + "@" + domain
  }

  /** `s[:i] + ins + s[i+1:]`: position `i` replaced by `ins`. */
  function Substitute(s: string, i: nat, ins: string): string
    requires i < |s|
  {
    s[..i] + ins + s[i + 1..]
  }

  /** `s[:i] + [z] + s[i:]`: `z` inserted before position `i`. */
  function InsertBefore(s: string, i: nat, z: char): string
    requires i <= |s|
  {
    s[..i] + [z] + s[i..]
  }

  // ---------------------------------------------------------------------
  // De-duplication

  /** The variant strings carried by `vs`. */
  function Strings(vs: seq<EmailVariant>): set<string>
  {
    set k | 0 <= k < |vs| :: vs[k].variant
  }

  /** No two entries carry the same variant string. */
  predicate Distinct(vs: seq<EmailVariant>)
  {
    forall a, b :: 0 <= a < b < |vs| ==> vs[a].variant != vs[b].variant
  }

  lemma StringsSnoc(vs: seq<EmailVariant>, v: EmailVariant)
    ensures Strings(vs + [v]) == Strings(vs) + {v.variant}
  {
    var r := vs + [v];
    assert forall k :: 0 <= k < |vs| ==> r[k] == vs[k];
    assert r[|vs|] == v;
  }

  lemma StringsConcat(a: seq<EmailVariant>, b: seq<EmailVariant>)
    ensures Strings(a + b) == Strings(a) + Strings(b)
  {
    var r := a + b;
    forall s | s in Strings(a) + Strings(b) ensures s in Strings(r) {
      if s in Strings(a) {
        var k :| 0 <= k < |a| && a[k].variant == s;
        assert r[k] == a[k];
      } else {
        var k :| 0 <= k < |b| && b[k].variant == s;
        assert r[|a| + k] == b[k];
      }
    }
  }

  lemma StringsPrefix(vs: seq<EmailVariant>, n: nat)
    requires n <= |vs|
    ensures Strings(vs[..n]) <= Strings(vs)
  {
    forall s | s in Strings(vs[..n]) ensures s in Strings(vs) {
      var k :| 0 <= k < n && vs[..n][k].variant == s;
      assert vs[k].variant == s;
    }
  }

  /** The candidates that survive the shared "already generated" set: in
      order, each candidate whose variant string is neither in `seen` nor
      carried by an earlier candidate. `seen + Strings(cands)` is the set
      afterwards. */
  function Fresh(cands: seq<EmailVariant>, seen: set<string>): (r: seq<EmailVariant>)
    ensures |r| <= |cands|
    decreases |cands|
  {
    if |cands| == 0 then []
    else
      var init := cands[..|cands| - 1];
      var last := cands[|cands| - 1];
      var kept := Fresh(init, seen);
      if last.variant in seen + Strings(init) then kept else kept + [last]
  }

  /** What de-duplication guarantees: the kept entries are candidates, none
      carries a string of `seen`, no two carry the same string, and together
      with `seen` they cover exactly the candidates' strings. */
  lemma {:induction false} FreshSound(cands: seq<EmailVariant>, seen: set<string>)
    ensures forall k :: 0 <= k < |Fresh(cands, seen)| ==> Fresh(cands, seen)[k] in cands
    ensures forall k :: 0 <= k < |Fresh(cands, seen)| ==> Fresh(cands, seen)[k].variant !in seen
    ensures Distinct(Fresh(cands, seen))
    ensures seen + Strings(Fresh(cands, seen)) == seen + Strings(cands)
    decreases |cands|
  {
    if |cands| > 0 {
      var init := cands[..|cands| - 1];
      var last := cands[|cands| - 1];
      assert cands == init + [last];
      FreshSound(init, seen);
      StringsSnoc(init, last);
      var kept := Fresh(init, seen);
      StringsSnoc(kept, last);
      if last.variant !in seen + Strings(init) {
        forall k | 0 <= k < |kept| ensures kept[k].variant != last.variant {
          assert kept[k].variant in Strings(kept);
        }
      }
    }
  }

  /** Adding one candidate extends the kept list by that candidate exactly
      when its string has not been generated yet. */
  lemma FreshSnoc(cands: seq<EmailVariant>, v: EmailVariant, seen: set<string>)
    ensures Fresh(cands + [v], seen)
         == if v.variant in seen + Strings(cands) then Fresh(cands, seen) else Fresh(cands, seen) + [v]
  {
    assert (cands + [v])[..|cands|] == cands;
  }

  /** One step of a strategy loop: the candidate is kept and its string
      recorded exactly when the string is not yet in the generated set. */
  lemma FreshStep(done: seq<EmailVariant>, v: EmailVariant, seen: set<string>, generated: set<string>,
                  kept: seq<EmailVariant>)
    requires kept == Fresh(done, seen) && generated == seen + Strings(done)
    ensures (if v.variant !in generated then kept + [v] else kept) == Fresh(done + [v], seen)
    ensures generated + {v.variant} == seen + Strings(done + [v])
  {
    FreshSnoc(done, v, seen);
    StringsSnoc(done, v);
  }

  /** The first candidate survives when its string was not generated before. */
  lemma {:induction false} FreshFirst(cands: seq<EmailVariant>, seen: set<string>)
    requires |cands| >= 1 && cands[0].variant !in seen
    ensures |Fresh(cands, seen)| >= 1 && Fresh(cands, seen)[0] == cands[0]
    decreases |cands|
  {
    if |cands| > 1 {
      var init := cands[..|cands| - 1];
      assert init[0] == cands[0];
      FreshFirst(init, seen);
    } else {
      assert cands[..0] == [];
      assert Strings([]) == {};
    }
  }

  // ---------------------------------------------------------------------
  // Homograph substitution

  /** The case rule: an upper-case original takes the upper-case form of the
      candidate only when that form is itself a key of the table. */
  function ChooseCase(original: char, h: char): char
  {
    if IsUpper(original) && IsKey(Upper(h)) then Upper(h) else h
  }

  function HomographVariant(u: string, d: string, i: nat, h: char): EmailVariant
    requires i < |u|
  {
    var c := ChooseCase(u[i], h);
    EmailVariant(Address(u, d), Address(Substitute(u, i, [c]), d), Homograph, [c as int], 0.95)
  }

  /** `v` differs from `u@d` in username position `i` only, which holds `h`. */
  ghost predicate SubstitutesAt(v: EmailVariant, u: string, d: string, i: nat, h: char)
  {
    && i < |u|
    && |v.variant| == |Address(u, d)|
    && v.variant[i] == h
    && forall k :: 0 <= k < |v.variant| && k != i ==> v.variant[k] == Address(u, d)[k]
  }

  /** What a homograph variant of `u@d` is: one username character whose
      lower-case form is a key replaced by a different character from that
      key's list, recorded as the one introduced code point. */
  ghost predicate IsHomographOf(v: EmailVariant, u: string, d: string)
  {
    && v.original == Address(u, d)
    && v.technique == Homograph
    && v.visualSimilarity == 0.95
    && exists i: nat, h: char ::
         && i < |u|
         && IsKey(Lower(u[i]))
         && h in CandidatesOf(Lower(u[i]))
         && h != u[i]
         && SubstitutesAt(v, u, d, i, h)
         && v.unicodePoints == [h as int]
  }

  lemma HomographVariantMeaning(u: string, d: string, i: nat, h: char)
    requires i < |u| && IsKey(Lower(u[i])) && h in CandidatesOf(Lower(u[i]))
    ensures HomographVariant(u, d, i, h).variant == Address(Substitute(u, i, [h]), d)
    ensures IsHomographOf(HomographVariant(u, d, i, h), u, d)
  {
    UpperRuleNeverFires(Lower(u[i]), h);
    CandidateDiffers(u[i], h);
    var v := HomographVariant(u, d, i, h);
    assert SubstitutesAt(v, u, d, i, h);
  }

  /** The variants of position `i` for the candidate characters `hs`, one
      per character, in order. */
  function HomographsFor(u: string, d: string, i: nat, hs: seq<char>): (r: seq<EmailVariant>)
    requires i < |u|
    ensures |r| == |hs|
  {
    if |hs| == 0 then [] else HomographsFor(u, d, i, hs[..|hs| - 1]) + [HomographVariant(u, d, i, hs[|hs| - 1])]
  }

  lemma {:induction false} HomographsForIndex(u: string, d: string, i: nat, hs: seq<char>, k: nat)
    requires i < |u| && k < |hs|
    ensures HomographsFor(u, d, i, hs)[k] == HomographVariant(u, d, i, hs[k])
    decreases |hs|
  {
    if k < |hs| - 1 {
      HomographsForIndex(u, d, i, hs[..|hs| - 1], k);
    }
  }

  lemma HomographsForSnoc(u: string, d: string, i: nat, hs: seq<char>, j: nat)
    requires i < |u| && j < |hs|
    ensures HomographsFor(u, d, i, hs[..j + 1]) == HomographsFor(u, d, i, hs[..j]) + [HomographVariant(u, d, i, hs[j])]
  {
    assert hs[..j + 1][..j] == hs[..j];
  }

  /** The candidates of position `i`, one per entry of its list, in order. */
  function HomographsAt(u: string, d: string, i: nat): (r: seq<EmailVariant>)
    requires i < |u|
    ensures IsKey(Lower(u[i])) ==> |r| == |CandidatesOf(Lower(u[i]))|
    ensures !IsKey(Lower(u[i])) ==> r == []
  {
    var key := Lower(u[i]);
    if IsKey(key) then HomographsFor(u, d, i, CandidatesOf(key)) else []
  }

  lemma HomographsAtMeaning(u: string, d: string, i: nat)
    requires i < |u|
    ensures forall k :: 0 <= k < |HomographsAt(u, d, i)| ==> IsHomographOf(HomographsAt(u, d, i)[k], u, d)
  {
    var r := HomographsAt(u, d, i);
    forall k | 0 <= k < |r| ensures IsHomographOf(r[k], u, d) {
      var hs := CandidatesOf(Lower(u[i]));
      HomographsForIndex(u, d, i, hs, k);
      HomographVariantMeaning(u, d, i, hs[k]);
    }
  }

  /** The candidates of positions `0..n-1`, before de-duplication. */
  function HomographCandidates(u: string, d: string, n: nat): (r: seq<EmailVariant>)
    requires n <= |u|
  {
    if n == 0 then [] else HomographCandidates(u, d, n - 1) + HomographsAt(u, d, n - 1)
  }

  lemma {:induction false} HomographCandidatesMeaning(u: string, d: string, n: nat)
    requires n <= |u|
    ensures forall k :: 0 <= k < |HomographCandidates(u, d, n)| ==> IsHomographOf(HomographCandidates(u, d, n)[k], u, d)
    decreases n
  {
    if n > 0 {
      var prev, here := HomographCandidates(u, d, n - 1), HomographsAt(u, d, n - 1);
      HomographCandidatesMeaning(u, d, n - 1);
      HomographsAtMeaning(u, d, n - 1);
      forall k | 0 <= k < |prev + here| ensures IsHomographOf((prev + here)[k], u, d) {
        if k >= |prev| {
          assert (prev + here)[k] == here[k - |prev|];
        }
      }
    }
  }

  // ---------------------------------------------------------------------
  // Zero-width insertion

  function ZeroWidthVariant(u: string, d: string, i: nat, z: char): EmailVariant
    requires i <= |u|
  {
    EmailVariant(Address(u, d), Address(InsertBefore(u, i, z), d), ZeroWidth, [z as int], 1.0)
  }

  /** What a zero-width variant of `u@d` is: one of the five invisible code
      points inserted before an existing username character. */
  ghost predicate IsZeroWidthOf(v: EmailVariant, u: string, d: string)
  {
    && v.original == Address(u, d)
    && v.technique == ZeroWidth
    && v.visualSimilarity == 1.0
    && |v.variant| == |Address(u, d)| + 1
    && exists i: nat, z: char ::
         && i < |u|
         && z in ZeroWidthChars
         && v.variant == Address(InsertBefore(u, i, z), d)
         && v.unicodePoints == [z as int]
  }

  /** The variants of position `i` for the zero-width characters `zs`, one
      per character, in order. */
  function ZeroWidthFor(u: string, d: string, i: nat, zs: seq<char>): (r: seq<EmailVariant>)
    requires i < |u|
    ensures |r| == |zs|
  {
    if |zs| == 0 then [] else ZeroWidthFor(u, d, i, zs[..|zs| - 1]) + [ZeroWidthVariant(u, d, i, zs[|zs| - 1])]
  }

  lemma {:induction false} ZeroWidthForIndex(u: string, d: string, i: nat, zs: seq<char>, k: nat)
    requires i < |u| && k < |zs|
    ensures ZeroWidthFor(u, d, i, zs)[k] == ZeroWidthVariant(u, d, i, zs[k])
    decreases |zs|
  {
    if k < |zs| - 1 {
      ZeroWidthForIndex(u, d, i, zs[..|zs| - 1], k);
    }
  }

  lemma ZeroWidthForSnoc(u: string, d: string, i: nat, zs: seq<char>, j: nat)
    requires i < |u| && j < |zs|
    ensures ZeroWidthFor(u, d, i, zs[..j + 1]) == ZeroWidthFor(u, d, i, zs[..j]) + [ZeroWidthVariant(u, d, i, zs[j])]
  {
    assert zs[..j + 1][..j] == zs[..j];
  }

  /** The candidates of position `i`, one per zero-width character, in order. */
  function ZeroWidthAt(u: string, d: string, i: nat): (r: seq<EmailVariant>)
    requires i < |u|
    ensures |r| == |ZeroWidthChars|
  {
    ZeroWidthFor(u, d, i, ZeroWidthChars)
  }

  function ZeroWidthCandidates(u: string, d: string, n: nat): (r: seq<EmailVariant>)
    requires n <= |u|
    ensures |r| == 5 * n
  {
    if n == 0 then [] else ZeroWidthCandidates(u, d, n - 1) + ZeroWidthAt(u, d, n - 1)
  }

  lemma {:induction false} ZeroWidthCandidatesMeaning(u: string, d: string, n: nat)
    requires n <= |u|
    ensures forall k :: 0 <= k < |ZeroWidthCandidates(u, d, n)| ==> IsZeroWidthOf(ZeroWidthCandidates(u, d, n)[k], u, d)
    decreases n
  {
    if n > 0 {
      var prev, here := ZeroWidthCandidates(u, d, n - 1), ZeroWidthAt(u, d, n - 1);
      ZeroWidthCandidatesMeaning(u, d, n - 1);
      forall k | 0 <= k < |prev + here| ensures IsZeroWidthOf((prev + here)[k], u, d) {
        if k >= |prev| {
          assert (prev + here)[k] == here[k - |prev|];
          ZeroWidthForIndex(u, d, n - 1, ZeroWidthChars, k - |prev|);
          assert ZeroWidthChars[k - |prev|] in ZeroWidthChars;
        }
      }
    }
  }

  // ---------------------------------------------------------------------
  // Mixed: first candidate plus one of the first two zero-width characters

  /** The first entry of a key's list. */
  function FirstConfusable(key: char): (h: char)
    requires IsKey(key)
    ensures h in CandidatesOf(key)
  {
    TableShape(key);
    CandidatesOf(key)[0]
  }

  function MixedVariant(u: string, d: string, i: nat, h: char, z: char): EmailVariant
    requires i < |u|
  {
    EmailVariant(Address(u, d), Address(Substitute(u, i, [h, z]), d), Mixed, [h as int, z as int], 0.90)
  }

  /** What a mixed variant of `u@d` is: one of the first three username
      characters replaced by the first candidate of its key followed by one
      of the first two zero-width characters. */
  ghost predicate IsMixedOf(v: EmailVariant, u: string, d: string)
  {
    && v.original == Address(u, d)
    && v.technique == Mixed
    && v.visualSimilarity == 0.90
    && |v.variant| == |Address(u, d)| + 1
    && exists i: nat, z: char ::
         && i < 3 && i < |u|
         && IsKey(Lower(u[i]))
         && z in ZeroWidthChars[..2]
         && v.variant == Address(Substitute(u, i, [FirstConfusable(Lower(u[i])), z]), d)
         && v.unicodePoints == [FirstConfusable(Lower(u[i])) as int, z as int]
  }

  /** The variants of position `i` for candidate `h` and the zero-width
      characters `zs`, one per character, in order. */
  function MixedFor(u: string, d: string, i: nat, h: char, zs: seq<char>): (r: seq<EmailVariant>)
    requires i < |u|
    ensures |r| == |zs|
  {
    if |zs| == 0 then [] else MixedFor(u, d, i, h, zs[..|zs| - 1]) + [MixedVariant(u, d, i, h, zs[|zs| - 1])]
  }

  lemma {:induction false} MixedForIndex(u: string, d: string, i: nat, h: char, zs: seq<char>, k: nat)
    requires i < |u| && k < |zs|
    ensures MixedFor(u, d, i, h, zs)[k] == MixedVariant(u, d, i, h, zs[k])
    decreases |zs|
  {
    if k < |zs| - 1 {
      MixedForIndex(u, d, i, h, zs[..|zs| - 1], k);
    }
  }

  lemma MixedForSnoc(u: string, d: string, i: nat, h: char, zs: seq<char>, j: nat)
    requires i < |u| && j < |zs|
    ensures MixedFor(u, d, i, h, zs[..j + 1]) == MixedFor(u, d, i, h, zs[..j]) + [MixedVariant(u, d, i, h, zs[j])]
  {
    assert zs[..j + 1][..j] == zs[..j];
  }

  /** The candidates of one of the first three positions: the first
      candidate of its key followed by each of the first two zero-width
      characters. */
  function MixedAt(u: string, d: string, i: nat): (r: seq<EmailVariant>)
    requires i < |u| && i < 3
    ensures IsKey(Lower(u[i])) ==> |r| == 2
    ensures !IsKey(Lower(u[i])) ==> r == []
  {
    var key := Lower(u[i]);
    if IsKey(key) then MixedFor(u, d, i, FirstConfusable(key), ZeroWidthChars[..2]) else []
  }

  lemma MixedAtMeaning(u: string, d: string, i: nat)
    requires i < |u| && i < 3
    ensures forall k :: 0 <= k < |MixedAt(u, d, i)| ==> IsMixedOf(MixedAt(u, d, i)[k], u, d)
  {
    var r := MixedAt(u, d, i);
    forall k | 0 <= k < |r| ensures IsMixedOf(r[k], u, d) {
      var h := FirstConfusable(Lower(u[i]));
      MixedForIndex(u, d, i, h, ZeroWidthChars[..2], k);
      var z := ZeroWidthChars[..2][k];
      assert z in ZeroWidthChars[..2];
      assert |r[k].variant| == |Address(u, d)| + 1;
    }
  }

  function MixedCandidates(u: string, d: string, n: nat): (r: seq<EmailVariant>)
    requires n <= |u| && n <= 3
    ensures |r| <= 2 * n
  {
    if n == 0 then [] else MixedCandidates(u, d, n - 1) + MixedAt(u, d, n - 1)
  }

  lemma {:induction false} MixedCandidatesMeaning(u: string, d: string, n: nat)
    requires n <= |u| && n <= 3
    ensures forall k :: 0 <= k < |MixedCandidates(u, d, n)| ==> IsMixedOf(MixedCandidates(u, d, n)[k], u, d)
    decreases n
  {
    if n > 0 {
      var prev, here := MixedCandidates(u, d, n - 1), MixedAt(u, d, n - 1);
      MixedCandidatesMeaning(u, d, n - 1);
      MixedAtMeaning(u, d, n - 1);
      forall k | 0 <= k < |prev + here| ensures IsMixedOf((prev + here)[k], u, d) {
        if k >= |prev| {
          assert (prev + here)[k] == here[k - |prev|];
        }
      }
    }
  }

  // ---------------------------------------------------------------------
  // Punycode: first candidate in the first domain label, then IDNA-encoded

  /** The domain with position `i` of its first label replaced by `h`,
      re-joined from the labels. */
  function SubstitutedDomain(labels: seq<string>, i: nat, h: char): string
    requires |labels| >= 1 && i < |labels[0]|
  {
    Join([Substitute(labels[0], i, [h])] + labels[1..], '.')
  }

  /** What a punycode variant of `u@d` is: the username unchanged, and the
      domain the successful encoding of `d` with one of the first three
      characters of its first label replaced by its first candidate. */
  ghost predicate IsPunycodeOf(v: EmailVariant, u: string, d: string, idna: string -> Option<string>)
  {
    var labels := Split(d, '.');
    && v.original == Address(u, d)
    && v.technique == Punycode
    && v.visualSimilarity == 0.85
    && |labels| >= 2
    && exists i: nat, e: string ::
         && i < 3 && i < |labels[0]|
         && IsKey(Lower(labels[0][i]))
         && idna(SubstitutedDomain(labels, i, FirstConfusable(Lower(labels[0][i])))) == Some(e)
         && v.variant == Address(u, e)
         && v.unicodePoints == [FirstConfusable(Lower(labels[0][i])) as int]
  }

  function PunycodeAt(u: string, d: string, labels: seq<string>, i: nat, idna: string -> Option<string>): (r: seq<EmailVariant>)
    requires labels == Split(d, '.') && |labels| >= 2 && i < |labels[0]| && i < 3
    ensures |r| <= 1
  {
    var key := Lower(labels[0][i]);
    if IsKey(key) then
      var h := FirstConfusable(key);
      match idna(SubstitutedDomain(labels, i, h))
      case Some(encoded) => [EmailVariant(Address(u, d), Address(u, encoded), Punycode, [h as int], 0.85)]
      case None => []
    else []
  }

  lemma PunycodeAtMeaning(u: string, d: string, labels: seq<string>, i: nat, idna: string -> Option<string>)
    requires labels == Split(d, '.') && |labels| >= 2 && i < |labels[0]| && i < 3
    ensures forall k :: 0 <= k < |PunycodeAt(u, d, labels, i, idna)| ==> IsPunycodeOf(PunycodeAt(u, d, labels, i, idna)[k], u, d, idna)
  {
    var key := Lower(labels[0][i]);
    if IsKey(key) {
      var h := FirstConfusable(key);
      match idna(SubstitutedDomain(labels, i, h))
      case Some(encoded) =>
        var v := EmailVariant(Address(u, d), Address(u, encoded), Punycode, [h as int], 0.85);
        assert IsPunycodeOf(v, u, d, idna) by {
          assert idna(SubstitutedDomain(labels, i, FirstConfusable(Lower(labels[0][i])))) == Some(encoded);
        }
      case None =>
    }
  }

  function PunycodeCandidatesUpTo(u: string, d: string, labels: seq<string>, n: nat, idna: string -> Option<string>): (r: seq<EmailVariant>)
    requires labels == Split(d, '.') && |labels| >= 2 && n <= |labels[0]| && n <= 3
    ensures |r| <= n
  {
    if n == 0 then [] else PunycodeCandidatesUpTo(u, d, labels, n - 1, idna) + PunycodeAt(u, d, labels, n - 1, idna)
  }

  lemma {:induction false} PunycodeCandidatesUpToMeaning(u: string, d: string, labels: seq<string>, n: nat,
                                                         idna: string -> Option<string>)
    requires labels == Split(d, '.') && |labels| >= 2 && n <= |labels[0]| && n <= 3
    ensures forall k :: 0 <= k < |PunycodeCandidatesUpTo(u, d, labels, n, idna)|
              ==> IsPunycodeOf(PunycodeCandidatesUpTo(u, d, labels, n, idna)[k], u, d, idna)
    decreases n
  {
    if n > 0 {
      var prev, here := PunycodeCandidatesUpTo(u, d, labels, n - 1, idna), PunycodeAt(u, d, labels, n - 1, idna);
      PunycodeCandidatesUpToMeaning(u, d, labels, n - 1, idna);
      PunycodeAtMeaning(u, d, labels, n - 1, idna);
      forall k | 0 <= k < |prev + here| ensures IsPunycodeOf((prev + here)[k], u, d, idna) {
        if k >= |prev| {
          assert (prev + here)[k] == here[k - |prev|];
        }
      }
    }
  }

  function PunycodeCandidates(u: string, d: string, idna: string -> Option<string>): (r: seq<EmailVariant>)
    ensures |r| <= 3
    ensures !('.' in d) ==> r == []
  {
    var labels := Split(d, '.');
    if |labels| >= 2 then
      PunycodeCandidatesUpTo(u, d, labels, if |labels[0]| < 3 then |labels[0]| else 3, idna)
    else []
  }

  lemma PunycodeCandidatesMeaning(u: string, d: string, idna: string -> Option<string>)
    ensures forall k :: 0 <= k < |PunycodeCandidates(u, d, idna)| ==> IsPunycodeOf(PunycodeCandidates(u, d, idna)[k], u, d, idna)
  {
    var labels := Split(d, '.');
    if |labels| >= 2 {
      PunycodeCandidatesUpToMeaning(u, d, labels, if |labels[0]| < 3 then |labels[0]| else 3, idna);
    }
  }
}
