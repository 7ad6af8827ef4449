/** The string helpers of the framework that sit in front of the engine:
    `truncate_string`, `normalize_url` and `validate_email`. */
module Utils {
  import opened Wrappers
  import opened PyStr
  import opened Generation

  // ---------------------------------------------------------------------
  // truncate_string

  /** Python `s[:k]` for any integer `k`: a negative end counts from the
      back and stops at the front. */
  function SliceTo(s: string, k: int): (r: string)
    ensures |r| == if k >= 0 then (if k <= |s| then k else |s|)
                   else (if |s| + k >= 0 then |s| + k else 0)
    ensures r == s[..|r|]
  {
    if k >= 0 then Prefix(s, k)
    else if |s| + k >= 0 then s[..|s| + k]
    else []
  }

  /** `truncate_string(text, max_length)`: the text itself when it fits,
      otherwise its slice up to `max_length - 3` followed by "...". */
  function TruncateString(text: string, maxLength: int): (r: string)
    ensures |text| <= maxLength ==> r == text
    ensures |text| > maxLength ==>
              3 <= |r| <= |text| + 3 && r[|r| - 3..] == "..." && r[..|r| - 3] == text[..|r| - 3]
  {
    if |text| <= maxLength then text
    else SliceTo(text, maxLength - 3) + "..."
  }

  /** A text longer than a bound of at least 3 is cut to exactly the bound,
      keeping its first `maxLength - 3` characters. */
  lemma TruncateLong(text: string, maxLength: int)
    requires |text| > maxLength >= 3
    ensures |TruncateString(text, maxLength)| == maxLength
    ensures TruncateString(text, maxLength) == text[..maxLength - 3] + "..."
  {
  }

  /** Below 3 the bound is not met: the negative slice end keeps all but
      `3 - maxLength` characters, so the result can be longer than the
      bound (up to `|text| + maxLength` characters). */
  lemma TruncateTinyBound(text: string, maxLength: int)
    requires 0 <= maxLength < 3 && |text| > maxLength
    ensures |TruncateString(text, maxLength)| == (if |text| >= 3 - maxLength then |text| + maxLength else 3)
  {
  }

  /** Truncating twice with the same bound of at least 3 changes nothing
      the second time. */
  lemma TruncateIdempotent(text: string, maxLength: int)
    requires maxLength >= 3
    ensures TruncateString(TruncateString(text, maxLength), maxLength) == TruncateString(text, maxLength)
  {
    if |text| > maxLength {
      TruncateLong(text, maxLength);
    }
  }

  // ---------------------------------------------------------------------
  // normalize_url

  predicate StartsWith(s: string, p: string)
  {
    |p| <= |s| && s[..|p|] == p
  }

  /** The input already names one of the two accepted schemes. */
  predicate HasScheme(url: string)
  {
    StartsWith(url, "http://") || StartsWith(url, "https://")
  }

  /** Python `s.rstrip('/')`: the longest prefix not ending in '/', with
      only '/' characters removed. */
  function StripSlashes(s: string): (r: string)
    ensures |r| <= |s| && r == s[..|r|]
    ensures |r| == 0 || r[|r| - 1] != '/'
    ensures forall k :: |r| <= k < |s| ==> s[k] == '/'
    decreases |s|
  {
    if |s| > 0 && s[|s| - 1] == '/' then StripSlashes(s[..|s| - 1]) else s
  }

  /** `normalize_url(url)`: "https://" in front of an input without an
      accepted scheme, then every trailing '/' removed. */
  function NormalizeUrl(url: string): (r: string)
    ensures |r| == 0 || r[|r| - 1] != '/'
  {
    var withScheme := if HasScheme(url) then url else "https://" + url;
    StripSlashes(withScheme)
  }

  /** Nothing but '/' characters is ever removed, and only at the end. */
  lemma {:induction false} StripSlashesUnique(s: string, r: string)
    requires |r| <= |s| && r == s[..|r|]
    requires |r| == 0 || r[|r| - 1] != '/'
    requires forall k :: |r| <= k < |s| ==> s[k] == '/'
    ensures StripSlashes(s) == r
    decreases |s|
  {
    if |s| > |r| {
      assert s[|s| - 1] == '/';
      assert s[..|s| - 1][..|r|] == r;
      StripSlashesUnique(s[..|s| - 1], r);
    } else {
      assert s == r;
    }
  }

  /** An input with a scheme only loses its trailing '/' characters. */
  lemma NormalizeKeepsScheme(url: string)
    requires HasScheme(url)
    ensures NormalizeUrl(url) == StripSlashes(url)
    ensures forall k :: |NormalizeUrl(url)| <= k < |url| ==> url[k] == '/'
    ensures url == NormalizeUrl(url) + url[|NormalizeUrl(url)|..]
  {
  }

  /** An input without a scheme gets "https://" in front; unless it is made
      of '/' characters only, the rest is the input without its trailing
      '/' characters. */
  lemma NormalizePrependsHttps(url: string)
    requires !HasScheme(url) && StripSlashes(url) != []
    ensures NormalizeUrl(url) == "https://" + StripSlashes(url)
  {
    var r := "https://" + StripSlashes(url);
    var s := "https://" + url;
    assert r == s[..|r|];
    forall k | |r| <= k < |s| ensures s[k] == '/' {
      assert s[k] == url[k - 8];
    }
    StripSlashesUnique(s, r);
  }

  /** Normalising again changes nothing as long as the result kept its
      scheme. */
  lemma NormalizeIdempotent(url: string)
    requires HasScheme(NormalizeUrl(url))
    ensures NormalizeUrl(NormalizeUrl(url)) == NormalizeUrl(url)
  {
    var r := NormalizeUrl(url);
    StripSlashesUnique(r, r);
  }

  /** A bare scheme loses its slashes, and the remainder is then taken for a
      host: normalising is not idempotent in general. */
  lemma NormalizeBareScheme()
    ensures NormalizeUrl("http://") == "http:"
    ensures NormalizeUrl("http:") == "https://http:"
  {
    assert HasScheme("http://");
    assert "http://"[..6] == "http:/" && "http:/"[..5] == "http:";
    assert StripSlashes("http:") == "http:";
    assert StripSlashes("http:/") == "http:";
    assert !StartsWith("http:", "http://") && !StartsWith("http:", "https://");
    StripSlashesUnique("https://http:", "https://http:");
  }

  // ---------------------------------------------------------------------
  // validate_email

  /** `[a-zA-Z0-9._%+-]` */
  predicate LocalChar(c: char)
  {
    'a' <= c <= 'z' || 'A' <= c <= 'Z' || '0' <= c <= '9'
    || c == '.' || c == '_' || c == '%' || c == '+' || c == '-'
  }

  /** `[a-zA-Z0-9.-]` */
  predicate DomainChar(c: char)
  {
    'a' <= c <= 'z' || 'A' <= c <= 'Z' || '0' <= c <= '9' || c == '.' || c == '-'
  }

  /** `[a-zA-Z]` */
  predicate Letter(c: char)
  {
    'a' <= c <= 'z' || 'A' <= c <= 'Z'
  }

  /** The pattern `[a-zA-Z0-9._%+-]+@[a-zA-Z0-9.-]+\.[a-zA-Z]{2,}` matching
      the whole of `s`, stated as the regular expression reads: an '@' at
      `at` and a '.' at `dot` split `s` into a non-empty local part, a
      non-empty host part and a top-level part of two or more letters. */
  ghost predicate EmailPattern(s: string)
  {
    exists at, dot :: PatternAt(s, at, dot)
  }

  ghost predicate PatternAt(s: string, at: int, dot: int)
  {
    && 1 <= at && at + 2 <= dot && dot + 3 <= |s|
    && s[at] == '@' && s[dot] == '.'
    && (forall k :: 0 <= k < at ==> LocalChar(s[k]))
    && (forall k :: at < k < dot ==> DomainChar(s[k]))
    && (forall k :: dot < k < |s| ==> Letter(s[k]))
  }

  /** Index of the last occurrence of `c` in `s`. */
  function LastIndexOf(s: string, c: char): (r: Option<nat>)
    ensures r.None? <==> c !in s
    ensures r.Some? ==> r.value < |s| && s[r.value] == c && forall k :: r.value < k < |s| ==> s[k] != c
    decreases |s|
  {
    if |s| == 0 then None
    else if s[|s| - 1] == c then Some(|s| - 1)
    else LastIndexOf(s[..|s| - 1], c)
  }

  /** The last occurrence is the one with no further occurrence after it. */
  lemma LastIndexOfAt(s: string, c: char, j: nat)
    requires j < |s| && s[j] == c && forall k :: j < k < |s| ==> s[k] != c
    ensures LastIndexOf(s, c) == Some(j)
  {
  }

  /** The domain half: host characters throughout, and a last '.' with
      something before it and two or more letters after it. */
  predicate DomainMatches(d: string)
  {
    && (forall k :: 0 <= k < |d| ==> DomainChar(d[k]))
    && match LastIndexOf(d, '.')
       case None => false
       case Some(j) => 1 <= j && j + 3 <= |d| && forall k :: j < k < |d| ==> Letter(d[k])
  }

  /** The whole of `s` matches: the local part runs up to the first '@'. */
  predicate FullMatch(s: string)
  {
    match IndexOf(s, '@')
    case None => false
    case Some(at) =>
      1 <= at && (forall k :: 0 <= k < at ==> LocalChar(s[k])) && DomainMatches(s[at + 1..])
  }

  /** `validate_email(email)`: `re.match` anchors at the front, and `$` also
      matches just before one final newline. */
  predicate ValidateEmail(email: string)
  {
    FullMatch(email) || (|email| >= 1 && email[|email| - 1] == '\n' && FullMatch(email[..|email| - 1]))
  }

  /** The matcher accepts exactly the strings of the pattern. */
  lemma FullMatchMeaning(s: string)
    ensures FullMatch(s) <==> EmailPattern(s)
  {
    if FullMatch(s) {
      MatchIsPattern(s);
    }
    if EmailPattern(s) {
      var at, dot :| PatternAt(s, at, dot);
      PatternIsMatch(s, at, dot);
    }
  }

  lemma MatchIsPattern(s: string)
    requires FullMatch(s)
    ensures EmailPattern(s)
  {
    var at := IndexOf(s, '@').value;
    var d := s[at + 1..];
    var j := LastIndexOf(d, '.').value;
    assert forall k :: at < k < |s| ==> s[k] == d[k - at - 1];
    assert PatternAt(s, at, at + 1 + j);
  }

  lemma PatternIsMatch(s: string, at: int, dot: int)
    requires PatternAt(s, at, dot)
    ensures FullMatch(s)
  {
    IndexOfAt(s, '@', at);
    var d := s[at + 1..];
    var j := dot - at - 1;
    forall k | 0 <= k < |d| ensures DomainChar(d[k]) && (j < k ==> Letter(d[k]) && d[k] != '.') {
      assert d[k] == s[at + 1 + k];
    }
    assert d[j] == s[dot];
    LastIndexOfAt(d, '.', j);
  }

  /** An accepted address splits at its '@' into a non-empty username of
      local characters and a domain holding a '.', so the engine's
      invalid-email path is never taken behind this check. */
  lemma ValidatedSplits(email: string)
    requires ValidateEmail(email)
    ensures SplitEmail(email).Some?
    ensures var (u, d) := SplitEmail(email).value;
            |u| >= 1 && (forall k :: 0 <= k < |u| ==> LocalChar(u[k])) && '.' in d
  {
    if FullMatch(email) {
      MatchSplits(email, "");
      assert email + "" == email;
    } else {
      var s := email[..|email| - 1];
      assert email == s + [email[|email| - 1]];
      MatchSplits(s, "\n");
    }
  }

  /** The split of a matching string, possibly followed by more text. */
  lemma MatchSplits(s: string, t: string)
    requires FullMatch(s)
    ensures SplitEmail(s + t).Some?
    ensures var (u, d) := SplitEmail(s + t).value;
            |u| >= 1 && (forall k :: 0 <= k < |u| ==> LocalChar(u[k])) && '.' in d
  {
    var at := IndexOf(s, '@').value;
    var e := s + t;
    forall k | 0 <= k < at ensures e[k] != '@' {
      assert e[k] == s[..at][k];
    }
    IndexOfAt(e, '@', at);
    var ds := s[at + 1..];
    var j := LastIndexOf(ds, '.').value;
    assert e[at + 1..][j] == ds[j];
    assert e[..at] == s[..at];
  }

  /** Python's `$` lets one trailing newline through; two are refused. */
  lemma AcceptsPlain()
    ensures ValidateEmail("a@b.co")
  {
    PatternIsMatch("a@b.co", 1, 3);
  }

  lemma AcceptsOneNewline()
    ensures ValidateEmail("a@b.co\n")
  {
    AcceptsPlain();
    assert "a@b.co\n"[..6] == "a@b.co";
  }

  lemma RejectsTwoNewlines()
    ensures !ValidateEmail("a@b.co\n\n")
  {
    var t := "a@b.co\n\n";
    assert IndexOf(t, '@') == Some(1);
    assert !DomainChar(t[2..][5]);
    assert t[..7] == "a@b.co\n";
    assert IndexOf(t[..7], '@') == Some(1);
    assert !DomainChar(t[..7][2..][4]);
  }
}
