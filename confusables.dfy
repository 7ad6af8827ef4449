/** The confusable table and the zero-width code points of the variant
    engine, with the case mapping used to look characters up in the table. */
module Confusables {
  import opened Wrappers

  /** Number of entries of the table. */
  const TableSize: nat := 36

  /** The key of entry `idx`, in table order: nineteen lower-case letters,
      then seventeen upper-case ones. */
  function TableKey(idx: nat): char
  {
    match idx
    case 0 => 'a'
    case 1 => 'e'
    case 2 => 'i'
    case 3 => 'o'
    case 4 => 'u'
    case 5 => 'c'
    case 6 => 'p'
    case 7 => 'x'
    case 8 => 'y'
    case 9 => 's'
    case 10 => 'n'
    case 11 => 'h'
    case 12 => 'j'
    case 13 => 'k'
    case 14 => 'l'
    case 15 => 'm'
    case 16 => 't'
    case 17 => 'w'
    case 18 => 'z'
    case 19 => 'A'
    case 20 => 'B'
    case 21 => 'C'
    case 22 => 'E'
    case 23 => 'H'
    case 24 => 'I'
    case 25 => 'J'
    case 26 => 'K'
    case 27 => 'M'
    case 28 => 'N'
    case 29 => 'O'
    case 30 => 'P'
    case 31 => 'S'
    case 32 => 'T'
    case 33 => 'X'
    case 34 => 'Y'
    case 35 => 'Z'
    case _ => ' '
  }

  /** The candidate list of entry `idx`. Several lists repeat a candidate
      (the Cyrillic letter at both ends of the 'a' list, for one); the
      repetition is kept. */
  function TableList(idx: nat): seq<char>
  {
    match idx
    case 0 => ['\U{0430}', '\U{0101}', '\U{0103}', '\U{0105}', '\U{03AC}', '\U{03B1}', '\U{0430}']
    case 1 => ['\U{0435}', '\U{0113}', '\U{0117}', '\U{0119}', '\U{03AD}', '\U{03B5}', '\U{0435}']
    case 2 => ['\U{0456}', '\U{012B}', '\U{012F}', '\U{03AF}', '\U{03B9}', '\U{0456}']
    case 3 => ['\U{043E}', '\U{014D}', '\U{0151}', '\U{03CC}', '\U{03BF}', '\U{043E}']
    case 4 => ['\U{03C5}', '\U{016B}', '\U{0173}', '\U{03CD}', '\U{03C5}']
    case 5 => ['\U{0441}', '\U{0107}', '\U{010D}', '\U{010B}', '\U{0441}']
    case 6 => ['\U{0440}', '\U{03C1}', '\U{0440}']
    case 7 => ['\U{0445}', '\U{03C7}', '\U{0445}']
    case 8 => ['\U{0443}', '\U{00FD}', '\U{00FF}', '\U{0443}']
    case 9 => ['\U{0455}', '\U{015B}', '\U{0161}', '\U{0219}', '\U{0455}']
    case 10 => ['\U{0578}', '\U{00F1}', '\U{0144}', '\U{0148}']
    case 11 => ['\U{04BB}', '\U{045B}', '\U{04BB}']
    case 12 => ['\U{0458}', '\U{0458}']
    case 13 => ['\U{03BA}', '\U{0137}', '\U{0138}']
    case 14 => ['\U{04CF}', '\U{013A}', '\U{013C}', '\U{013E}']
    case 15 => ['\U{043C}', '\U{1E41}', '\U{043C}']
    case 16 => ['\U{03C4}', '\U{0163}', '\U{0165}']
    case 17 => ['\U{03C9}', '\U{0175}', '\U{1E81}', '\U{1E83}']
    case 18 => ['\U{03B6}', '\U{017A}', '\U{017C}', '\U{017E}']
    case 19 => ['\U{0391}', '\U{0410}', '\U{0100}', '\U{0102}', '\U{0410}']
    case 20 => ['\U{0412}', '\U{0392}', '\U{0412}']
    case 21 => ['\U{0421}', '\U{03F9}', '\U{0421}']
    case 22 => ['\U{0415}', '\U{0395}', '\U{0112}', '\U{0415}']
    case 23 => ['\U{0397}', '\U{041D}', '\U{04A2}', '\U{041D}']
    case 24 => ['\U{0399}', '\U{0406}', '\U{04C0}', '\U{0406}']
    case 25 => ['\U{0408}', '\U{0408}']
    case 26 => ['\U{039A}', '\U{041A}', '\U{0136}', '\U{041A}']
    case 27 => ['\U{041C}', '\U{039C}', '\U{041C}']
    case 28 => ['\U{039D}', '\U{039D}']
    case 29 => ['\U{039F}', '\U{041E}', '\U{014C}', '\U{041E}']
    case 30 => ['\U{03A1}', '\U{0420}', '\U{0420}']
    case 31 => ['\U{0405}', '\U{015A}', '\U{0405}']
    case 32 => ['\U{03A4}', '\U{0422}', '\U{0422}']
    case 33 => ['\U{03A7}', '\U{0425}', '\U{0425}']
    case 34 => ['\U{03A5}', '\U{04AE}', '\U{04EE}']
    case 35 => ['\U{0396}', '\U{0179}', '\U{017B}']
    case _ => []
  }

  /** `HOMOGRAPHS.get(k)`: the list of the first entry from `idx` on whose
      key is `k`, if any. */
  function Find(idx: nat, k: char): Option<seq<char>>
    decreases TableSize - idx
  {
    if idx >= TableSize then None
    else if TableKey(idx) == k then Some(TableList(idx))
    else Find(idx + 1, k)
  }

  /** `k in HOMOGRAPHS`. */
  predicate IsKey(k: char)
  {
    Find(0, k).Some?
  }

  /** `HOMOGRAPHS[k]`. */
  function CandidatesOf(k: char): seq<char>
    requires IsKey(k)
  {
    Find(0, k).value
  }

  /** Zero-width space, zero-width non-joiner, zero-width joiner, word joiner
      and zero-width no-break space, in this order. */
  const ZeroWidthChars: seq<char> := ['\U{200B}', '\U{200C}', '\U{200D}', '\U{2060}', '\U{FEFF}']

  /** The Kelvin sign, the one non-ASCII character whose lower-case form is a
      key of the table (it lowers to 'k'). */
  const KelvinSign: char := '\U{212A}'

  /** `c.lower()` as far as table lookups can tell: ASCII upper-case letters
      and the Kelvin sign lower to an ASCII letter, every other character
      lowers to something that is not a key, modelled as itself. */
  function Lower(c: char): char
  {
    if 'A' <= c <= 'Z' then (c as int + 32) as char
    else if c == KelvinSign then 'k'
    else c
  }

  /** `c.isupper()`, for the characters whose lower-case form is a key. */
  predicate IsUpper(c: char)
  {
    'A' <= c <= 'Z' || c == KelvinSign
  }

  /** `c.upper()` as far as table lookups can tell: ASCII lower-case letters,
      the dotless i and the long s upper to ASCII letters, every other
      character uppers to something that is not a key, modelled as itself. */
  function Upper(c: char): char
  {
    if 'a' <= c <= 'z' then (c as int - 32) as char
    else if c == '\U{0131}' then 'I'
    else if c == '\U{017F}' then 'S'
    else c
  }

  predicate IsAsciiLetter(c: char)
  {
    'a' <= c <= 'z' || 'A' <= c <= 'Z'
  }

  /** Every key is an ASCII letter, every list has at least two entries, and
      every candidate lies outside ASCII and is neither the dotless i nor the
      long s (the two non-ASCII characters that upper-case to a key) nor the
      Kelvin sign (the one that lower-cases to a key). */
  predicate EntryShape(k: char, hs: seq<char>)
  {
    && IsAsciiLetter(k)
    && |hs| >= 2
    && forall h :: h in hs ==> h as int >= 0x80 && h != '\U{0131}' && h != '\U{017F}' && h != KelvinSign
  }

  lemma EntriesShape(idx: nat)
    requires idx < TableSize
    ensures EntryShape(TableKey(idx), TableList(idx))
  {
    if idx < 12 {
      EntriesShapeLow(idx);
    } else if idx < 24 {
      EntriesShapeMid(idx);
    } else {
      EntriesShapeHigh(idx);
    }
  }

  // The entries checked a third of the table at a time.

  lemma EntriesShapeLow(idx: nat)
    requires idx < 12
    ensures EntryShape(TableKey(idx), TableList(idx))
  {
  }

  lemma EntriesShapeMid(idx: nat)
    requires 12 <= idx < 24
    ensures EntryShape(TableKey(idx), TableList(idx))
  {
  }

  lemma EntriesShapeHigh(idx: nat)
    requires 24 <= idx < TableSize
    ensures EntryShape(TableKey(idx), TableList(idx))
  {
  }

  /** The search succeeds exactly on the keys of the entries from `idx` on,
      and then returns the list of one of them. */
  lemma {:induction false} FindMeaning(idx: nat, k: char)
    ensures Find(idx, k).Some? <==> exists j :: idx <= j < TableSize && TableKey(j) == k
    ensures Find(idx, k).Some? ==>
      exists j :: idx <= j < TableSize && TableKey(j) == k && Find(idx, k).value == TableList(j)
    decreases TableSize - idx
  {
    if idx < TableSize && TableKey(idx) != k {
      FindMeaning(idx + 1, k);
      if exists j :: idx <= j < TableSize && TableKey(j) == k {
        var j :| idx <= j < TableSize && TableKey(j) == k;
        assert j != idx;
      }
    }
  }

  lemma TableShape(k: char)
    requires IsKey(k)
    ensures IsAsciiLetter(k)
    ensures |CandidatesOf(k)| >= 2
    ensures forall h :: h in CandidatesOf(k) ==> h as int >= 0x80 && h != '\U{0131}' && h != '\U{017F}' && h != KelvinSign
  {
    FindMeaning(0, k);
    var j :| 0 <= j < TableSize && TableKey(j) == k && Find(0, k).value == TableList(j);
    EntriesShape(j);
  }

  /** Lookups go through `Lower`, which never yields an upper-case ASCII
      letter, so the upper-case keys of the table are never reached. */
  lemma UppercaseKeysUnreachable(c: char)
    ensures !('A' <= Lower(c) <= 'Z')
    ensures IsKey(Lower(c)) ==> 'a' <= Lower(c) <= 'z'
    ensures IsKey(Lower(c)) ==> IsAsciiLetter(c) || c == KelvinSign
  {
    if IsKey(Lower(c)) {
      TableShape(Lower(c));
    }
  }

  /** An upper-case letter whose lower-case form is not a key gets no
      confusables, even when the table has an entry for it. */
  lemma UppercaseBHasNoConfusable()
    ensures IsKey('B') && !IsKey(Lower('B'))
  {
    FindMeaning(0, 'B');
    assert TableKey(20) == 'B';
    FindMeaning(0, 'b');
    if IsKey('b') {
      var j :| 0 <= j < TableSize && TableKey(j) == 'b';
      assert false;
    }
  }

  /** The upper-casing rule of the homograph strategy never fires: no
      candidate's upper-case form is itself a key. */
  lemma UpperRuleNeverFires(k: char, h: char)
    requires IsKey(k) && h in CandidatesOf(k)
    ensures !IsKey(Upper(h))
  {
    TableShape(k);
    assert Upper(h) == h;
    if IsKey(Upper(h)) {
      TableShape(Upper(h));
      assert false;
    }
  }

  /** A character that has confusables is never one of its own candidates. */
  lemma CandidateDiffers(c: char, h: char)
    requires IsKey(Lower(c)) && h in CandidatesOf(Lower(c))
    ensures h != c
  {
    UppercaseKeysUnreachable(c);
    TableShape(Lower(c));
  }
}
