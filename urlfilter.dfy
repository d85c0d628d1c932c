/**
 * The crawler's URL filter: the scheme upgrade applied to every location, the
 * host check, and the exclusion pattern that `init` compiles from the SDK deny
 * list. The regular expression is modelled as data (a literal prefix, a set of
 * alternatives, a literal suffix) with the meaning Go's unanchored
 * `MatchString` gives it, and proved equal to the plain-language rule
 * `Excluded`.
 */
module UrlFilter {
  import opened Wrappers
  import opened Strings

  const DocsHost: string := "docs.aws.amazon.com"
  const DocsRoot: string := "https://docs.aws.amazon.com/"
  const Insecure: string := "http://"
  const Secure: string := "https://"

  /** Documentation trees of SDKs and language bindings that are never crawled. */
  const SdkExclusions: seq<string> := [
    "AWSJavaSDK", "AWSJavaScriptSDK", "CDI-SDK", "aws-sdk-php", "chime-sdk",
    "database-encryption-sdk", "embedded-csdk", "encryption-sdk", "pythonsdk",
    "sdk-for-android", "sdk-for-cpp", "sdk-for-go", "sdk-for-ios", "sdk-for-java",
    "sdk-for-javascript", "sdk-for-kotlin", "sdk-for-net", "sdk-for-php",
    "sdk-for-php1", "sdk-for-ruby", "sdk-for-rust", "sdk-for-sapabap",
    "sdk-for-swift", "sdk-for-unity", "sdkfornet", "sdkfornet1", "sdkref",
    "xray-sdk-for-java"
  ]

  // ---------------------------------------------------------------------------
  // Scheme upgrade
  // ---------------------------------------------------------------------------

  /** The first `http://` anywhere in `u` becomes `https://`; nothing else changes. */
  function Upgrade(u: string): string
  {
    ReplaceFirst(u, Insecure, Secure)
  }

  /** A location written with the insecure scheme is rewritten to the secure one. */
  lemma UpgradeInsecureScheme(rest: string)
    ensures Upgrade(Insecure + rest) == Secure + rest
  {
    ReplaceAtStart(Insecure, rest, Secure);
  }

  /** No `http://` starts inside the `https://` scheme itself. */
  lemma SchemeHidesInsecure(rest: string)
    ensures forall k :: 0 <= k < |Secure| ==> !OccursAt(Secure + rest, Insecure, k)
  {
    var u := Secure + rest;
    forall k | 0 <= k < |Secure| ensures !OccursAt(u, Insecure, k) {
      assert u[k] == Secure[k];
      if k == 0 {
        assert u[4] == Secure[4];
      }
    }
  }

  /**
   * `https://` is not an occurrence of `http://`, so a secure location keeps
   * its scheme and only its remainder is upgraded: an embedded `http://` (say
   * in a query string) is rewritten instead.
   */
  lemma UpgradeSecureScheme(rest: string)
    ensures Upgrade(Secure + rest) == Secure + Upgrade(rest)
  {
    SchemeHidesInsecure(rest);
    ReplaceAfterPrefix(Secure, rest, Insecure, Secure);
  }

  /** Wherever it sits, exactly the first `http://` is rewritten; without one the string is unchanged. */
  lemma UpgradeFirstOccurrence(u: string)
    ensures (forall k :: !OccursAt(u, Insecure, k)) ==> Upgrade(u) == u
    ensures forall i :: OccursAt(u, Insecure, i) && (forall k :: 0 <= k < i ==> !OccursAt(u, Insecure, k)) ==>
              Upgrade(u) == u[..i] + Secure + u[i + |Insecure|..]
  {
    ReplaceFirstSpec(u, Insecure, Secure);
  }

  // ---------------------------------------------------------------------------
  // The exclusion rule in plain terms
  // ---------------------------------------------------------------------------

  predicate IsLower(c: char) { 'a' <= c <= 'z' }

  /** A locale segment: two lowercase letters, `_`, two lowercase letters (`[a-z]{2}_[a-z]{2}`). */
  predicate IsLocale(w: string)
  {
    |w| == 5 && IsLower(w[0]) && IsLower(w[1]) && w[2] == '_' && IsLower(w[3]) && IsLower(w[4])
  }

  /**
   * A first path segment that is never crawled, given the SDK deny list
   * `sdks`. An empty list joins to the empty branch, which denies the empty
   * segment.
   */
  predicate IsDeniedSegment(sdks: seq<string>, seg: string)
  {
    IsLocale(seg) || seg == "cdk" || seg in sdks || (sdks == [] && seg == "")
  }

  predicate IsExcludedSegment(seg: string)
  {
    IsDeniedSegment(SdkExclusions, seg)
  }

  /** `<root><seg>/` occurs in `s` at offset `k`, for a denied `seg`. */
  predicate DeniedAt(root: string, sdks: seq<string>, s: string, k: nat, seg: string)
  {
    IsDeniedSegment(sdks, seg) && OccursAt(s, root + seg + "/", k)
  }

  ghost predicate DeniedBy(root: string, sdks: seq<string>, s: string)
  {
    exists k: nat, seg: string :: DeniedAt(root, sdks, s, k, seg)
  }

  /** The URL contains, anywhere, `https://docs.aws.amazon.com/<seg>/` for an excluded `seg`. */
  ghost predicate Excluded(s: string)
  {
    DeniedBy(DocsRoot, SdkExclusions, s)
  }

  /** Whatever surrounds it, a URL holding a denied tree root is denied. */
  lemma ContainsDeniedTree(root: string, sdks: seq<string>, before: string, seg: string, after: string)
    requires IsDeniedSegment(sdks, seg)
    ensures DeniedBy(root, sdks, before + root + seg + "/" + after)
  {
    var s := before + root + seg + "/" + after;
    var m := root + seg + "/";
    assert s == before + m + after;
    assert s[|before|..|before| + |m|] == m;
    DeniedWitness(root, sdks, s, |before|, seg);
  }

  /** Whatever surrounds it, a URL holding an excluded tree root is excluded. */
  lemma ContainsExcludedTree(before: string, seg: string, after: string)
    requires IsExcludedSegment(seg)
    ensures Excluded(before + DocsRoot + seg + "/" + after)
  {
    ContainsDeniedTree(DocsRoot, SdkExclusions, before, seg, after);
  }

  // ---------------------------------------------------------------------------
  // regexp.QuoteMeta and the literal syntax the regexp compiler reads back
  // ---------------------------------------------------------------------------

  /** The characters regexp.QuoteMeta escapes with a backslash. */
  predicate IsMeta(c: char)
  {
    c in "\\.+*?()|[]{}^$"
  }

  function QuoteMeta(s: string): (r: string)
    ensures |s| <= |r| <= 2 * |s|
  {
    if s == [] then []
    else (if IsMeta(s[0]) then ['\\', s[0]] else [s[0]]) + QuoteMeta(s[1..])
  }

  /** The literal text a quoted regular-expression fragment stands for: `\x` stands for `x`. */
  function Unquote(t: string): (r: string)
    ensures |r| <= |t|
    decreases |t|
  {
    if t == [] then []
    else if t[0] == '\\' && |t| >= 2 then [t[1]] + Unquote(t[2..])
    else [t[0]] + Unquote(t[1..])
  }

  lemma {:induction false} UnquoteQuoteMeta(s: string)
    ensures Unquote(QuoteMeta(s)) == s
  {
    if s != [] {
      var q := QuoteMeta(s[1..]);
      UnquoteQuoteMeta(s[1..]);
      if IsMeta(s[0]) {
        var t := ['\\', s[0]] + q;
        assert t[2..] == q;
      } else {
        var t := [s[0]] + q;
        assert t[1..] == q;
      }
      assert s == [s[0]] + s[1..];
    }
  }

  // ---------------------------------------------------------------------------
  // The compiled exclusion pattern
  // ---------------------------------------------------------------------------

  /** One branch of the alternation: the locale class, or a quoted literal. */
  datatype Alternative = LocalePair | Literal(text: string)

  /**
   * `root(?:alt_1|...|alt_n)/`. The root is kept as the literal text it stands
   * for; the format string spells it quoted, `https://docs\.aws\.amazon\.com/`.
   */
  datatype Pattern = Pattern(root: string, alternatives: seq<Alternative>)

  function Width(a: Alternative): nat
  {
    match a
    case LocalePair => 5
    case Literal(t) => |Unquote(t)|
  }

  predicate AltAccepts(a: Alternative, w: string)
  {
    match a
    case LocalePair => IsLocale(w)
    case Literal(t) => w == Unquote(t)
  }

  /** The pattern matches `s` at offset `k` through alternative number `a`. */
  predicate MatchesAt(p: Pattern, s: string, k: nat, a: nat)
  {
    a < |p.alternatives| &&
    var n, w := |p.root|, Width(p.alternatives[a]);
    k + n + w < |s| &&
    s[k..k + n] == p.root &&
    AltAccepts(p.alternatives[a], s[k + n..k + n + w]) &&
    s[k + n + w] == '/'
  }

  /** regexp.MatchString: the unanchored pattern matches somewhere in `s`. */
  predicate MatchString(p: Pattern, s: string)
  {
    exists k: nat, a: nat | k <= |s| && a < |p.alternatives| :: MatchesAt(p, s, k, a)
  }

  /**
   * The branches `strings.Join(escaped, "|")` contributes: one per quoted
   * name, or a single empty branch when there is no name.
   */
  function NameBranches(escaped: seq<string>): seq<Alternative>
  {
    if escaped == [] then [Literal("")]
    else seq(|escaped|, i requires 0 <= i < |escaped| => Literal(escaped[i]))
  }

  /** fmt.Sprintf of the pattern from the root and the quoted SDK names, then regexp.MustCompile. */
  function Compile(root: string, escaped: seq<string>): Pattern
  {
    Pattern(root, [LocalePair, Literal("cdk")] + NameBranches(escaped))
  }

  function QuoteAll(names: seq<string>): (r: seq<string>)
    ensures |r| == |names|
    ensures forall i :: 0 <= i < |names| ==> r[i] == QuoteMeta(names[i])
  {
    seq(|names|, i requires 0 <= i < |names| => QuoteMeta(names[i]))
  }

  /** The pattern `init` stores in the package-level `excludeRegex`. */
  function ExcludePattern(): Pattern
  {
    Compile(DocsRoot, QuoteAll(SdkExclusions))
  }

  /** The loop of `init`: a fresh array holding each name quoted, in order. */
  method QuoteEach(names: seq<string>) returns (escaped: array<string>)
    ensures fresh(escaped)
    ensures escaped[..] == QuoteAll(names)
  {
    escaped := new string[|names|];
    for i := 0 to |names|
      invariant forall j :: 0 <= j < i ==> escaped[j] == QuoteMeta(names[j])
    {
      escaped[i] := QuoteMeta(names[i]);
    }
  }

  /**
   * `init`: quote every SDK name, then compile the pattern. The compiled
   * pattern matches exactly the URLs the plain rule excludes.
   */
  method Init() returns (pattern: Pattern)
    ensures pattern == ExcludePattern()
    ensures forall s :: MatchString(pattern, s) <==> Excluded(s)
  {
    var escaped := QuoteEach(SdkExclusions);
    pattern := Compile(DocsRoot, escaped[..]);
    forall s ensures MatchString(pattern, s) <==> Excluded(s) {
      ExcludePatternExact(s);
    }
  }

  /** The alternatives of a compiled pattern, one per denied segment kind. */
  lemma CompiledAlternatives(root: string, sdks: seq<string>)
    ensures Compile(root, QuoteAll(sdks)).root == root
    ensures |Compile(root, QuoteAll(sdks)).alternatives| == if sdks == [] then 3 else |sdks| + 2
    ensures sdks == [] ==> Compile(root, QuoteAll(sdks)).alternatives[2] == Literal("")
    ensures Compile(root, QuoteAll(sdks)).alternatives[0] == LocalePair
    ensures Compile(root, QuoteAll(sdks)).alternatives[1] == Literal("cdk")
    ensures forall j :: 0 <= j < |sdks| ==> Compile(root, QuoteAll(sdks)).alternatives[j + 2] == Literal(QuoteMeta(sdks[j]))
  {
  }

  lemma SliceOfSlice(s: string, i: nat, j: nat, a: nat, b: nat)
    requires i <= j <= |s| && a <= b <= j - i
    ensures s[i..j][a..b] == s[i + a..i + b]
  {
    forall x | 0 <= x < b - a ensures s[i..j][a..b][x] == s[i + a..i + b][x] {
    }
  }

  /** `root`, then `seg`, then `/` laid end to end at offset `k`. */
  lemma OccursFromParts(s: string, root: string, seg: string, k: nat, w: nat)
    requires k + |root| + w < |s| && s[k..k + |root|] == root
    requires seg == s[k + |root|..k + |root| + w] && s[k + |root| + w] == '/'
    ensures OccursAt(s, root + seg + "/", k)
  {
    var L := |root|;
    assert s[k..k + L + w + 1] == s[k..k + L] + s[k + L..k + L + w] + [s[k + L + w]];
  }

  /** A word accepted by an alternative of a compiled pattern is a denied segment. */
  lemma AcceptedSegmentIsDenied(root: string, sdks: seq<string>, a: nat, seg: string)
    requires a < |Compile(root, QuoteAll(sdks)).alternatives|
    requires AltAccepts(Compile(root, QuoteAll(sdks)).alternatives[a], seg)
    ensures IsDeniedSegment(sdks, seg)
  {
    CompiledAlternatives(root, sdks);
    var alt := Compile(root, QuoteAll(sdks)).alternatives[a];
    if a == 1 {
      assert Unquote("cdk") == "cdk";
    } else if a >= 2 && sdks == [] {
      assert seg == Unquote("");
    } else if a >= 2 {
      var j := a - 2;
      assert alt == Literal(QuoteAll(sdks)[j]);
      UnquoteQuoteMeta(sdks[j]);
      assert seg == sdks[j];
    }
  }

  /** Every denied segment is accepted by some alternative of the compiled pattern. */
  lemma DeniedSegmentIsAccepted(root: string, sdks: seq<string>, seg: string) returns (a: nat)
    requires IsDeniedSegment(sdks, seg)
    ensures a < |Compile(root, QuoteAll(sdks)).alternatives|
    ensures AltAccepts(Compile(root, QuoteAll(sdks)).alternatives[a], seg)
    ensures Width(Compile(root, QuoteAll(sdks)).alternatives[a]) == |seg|
  {
    CompiledAlternatives(root, sdks);
    var alts := Compile(root, QuoteAll(sdks)).alternatives;
    if IsLocale(seg) {
      a := 0;
    } else if seg == "cdk" {
      assert Unquote("cdk") == "cdk";
      a := 1;
    } else if sdks == [] {
      a := 2;
      assert Unquote("") == seg;
    } else {
      var j :| 0 <= j < |sdks| && sdks[j] == seg;
      UnquoteQuoteMeta(seg);
      a := j + 2;
      assert alts[a] == Literal(QuoteMeta(seg));
    }
  }

  /** A pattern matches wherever its root, an accepted word and `/` occur in a row. */
  lemma MatchFromParts(p: Pattern, s: string, k: nat, a: nat, seg: string)
    requires a < |p.alternatives| && AltAccepts(p.alternatives[a], seg) && Width(p.alternatives[a]) == |seg|
    requires OccursAt(s, p.root + seg + "/", k)
    ensures MatchString(p, s)
  {
    var L, m := |p.root|, p.root + seg + "/";
    var t := s[k..k + |m|];
    assert t == m;
    SliceOfSlice(s, k, k + |m|, 0, L);
    SliceOfSlice(s, k, k + |m|, L, L + |seg|);
    assert t[..L] == p.root && t[L..L + |seg|] == seg && t[L + |seg|] == '/';
    assert MatchesAt(p, s, k, a);
  }

  lemma DeniedWitness(root: string, sdks: seq<string>, s: string, k: nat, seg: string)
    requires DeniedAt(root, sdks, s, k, seg)
    ensures DeniedBy(root, sdks, s)
  {
  }

  /** The word a match consumes: accepted by its alternative and followed by `/`, right after the root. */
  lemma MatchedSegment(p: Pattern, s: string, k: nat, a: nat) returns (seg: string)
    requires MatchesAt(p, s, k, a)
    ensures AltAccepts(p.alternatives[a], seg) && OccursAt(s, p.root + seg + "/", k)
  {
    var w := Width(p.alternatives[a]);
    seg := s[k + |p.root|..k + |p.root| + w];
    OccursFromParts(s, p.root, seg, k, w);
  }

  lemma MatchMeansDenied(root: string, sdks: seq<string>, s: string, k: nat, a: nat)
    requires MatchesAt(Compile(root, QuoteAll(sdks)), s, k, a)
    ensures DeniedBy(root, sdks, s)
  {
    var seg := MatchedSegment(Compile(root, QuoteAll(sdks)), s, k, a);
    CompiledAlternatives(root, sdks);
    AcceptedSegmentIsDenied(root, sdks, a, seg);
    DeniedWitness(root, sdks, s, k, seg);
  }

  lemma DeniedMeansMatch(root: string, sdks: seq<string>, s: string, k: nat, seg: string)
    requires DeniedAt(root, sdks, s, k, seg)
    ensures MatchString(Compile(root, QuoteAll(sdks)), s)
  {
    var a := DeniedSegmentIsAccepted(root, sdks, seg);
    MatchFromParts(Compile(root, QuoteAll(sdks)), s, k, a, seg);
  }

  /** With no SDK name the joined alternation ends in an empty branch, so the bare root followed by `/` matches. */
  lemma EmptyDenyList(root: string)
    ensures MatchString(Compile(root, QuoteAll([])), root + "/")
  {
    var s := root + "/";
    assert root + "" + "/" == s;
    assert s[0..|s|] == s;
    DeniedMeansMatch(root, [], s, 0, "");
  }

  /** Both directions: a pattern compiled from a deny list matches `s` iff the plain rule denies `s`. */
  lemma CompiledPatternExact(root: string, sdks: seq<string>, s: string)
    ensures MatchString(Compile(root, QuoteAll(sdks)), s) <==> DeniedBy(root, sdks, s)
  {
    var p := Compile(root, QuoteAll(sdks));
    if MatchString(p, s) {
      var k: nat, a: nat :| k <= |s| && a < |p.alternatives| && MatchesAt(p, s, k, a);
      MatchMeansDenied(root, sdks, s, k, a);
    }
    if DeniedBy(root, sdks, s) {
      var k: nat, seg: string :| DeniedAt(root, sdks, s, k, seg);
      DeniedMeansMatch(root, sdks, s, k, seg);
    }
  }

  /** The crawler's own pattern matches exactly the excluded URLs. */
  lemma ExcludePatternExact(s: string)
    ensures MatchString(ExcludePattern(), s) <==> Excluded(s)
  {
    CompiledPatternExact(DocsRoot, SdkExclusions, s);
  }

  /** The two tests every location must pass: exactly the documentation host, and not excluded. */
  predicate Admits(hostOf: string -> Option<string>, pattern: Pattern, u: string)
  {
    hostOf(u) == Some(DocsHost) && !MatchString(pattern, u)
  }
}
