/** Worked examples of the classifier on concrete requests. The URL parser
    is a parameter, so each example states the host it reports. */
module Scenarios {
  import opened Wrappers
  import opened Text
  import opened Types
  import opened Analyzer
  import Utf8
  import Percent
  import Email

  const AD_URL := "http://" + "ads." + "doubleclick" + ".net" + "/pixel" + "?x=1"
  const COLLECT_PATH := "https://" + "example.com" + "/" + "collect" + "?email="
  const COLLECT_URL := COLLECT_PATH + "alice" + "%40" + "example" + "." + "com"

  lemma AdUrlIsLower()
    ensures Lower(AD_URL) == AD_URL
  {
    assert HasNoUpperCase(AD_URL);
    LowerOfLowerCase(AD_URL);
  }

  lemma AdUrlIsTracker()
    ensures IsTracker(AD_URL)
  {
    AdUrlIsLower();
    var k := "doubleclick";
    var p := "http://" + "ads.";
    ContainsSuffix(p, k);
    ContainsAppend(p + k, k, ".net");
    ContainsAppend(p + k + ".net", k, "/pixel");
    ContainsAppend(p + k + ".net" + "/pixel", k, "?x=1");
    assert KEYWORDS[9] == k;
    TrackerIffKeyword(AD_URL);
  }

  lemma AdDomainIsNotExampleCom()
    ensures !Contains("ads.doubleclick.net", "example.com")
  {
    var domain := "ads.doubleclick.net";
    forall i | 0 <= i <= |domain| - 11
      ensures !OccursAt(domain, "example.com", i)
    {
      assert domain[i] in domain[..9];
      assert domain[i..i + 11][0] == domain[i];
    }
  }

  /** A plain-HTTP request to an ad server from a page on `example.com`:
      unencrypted transport and a third-party tracker, in that order, and
      no PII. */
  lemma AdServerRequest(host: HostParser, locate: Locator)
    requires host(AD_URL) == Some("ads.doubleclick.net")
    ensures var u := AnalyzeTraffic(RawTraffic(AD_URL, "GET", "image", None), "example.com", host, locate);
      && u.isTracker
      && u.violations == [Violation(UnencryptedHttp, High), Violation(ThirdPartyTracker, Medium)]
  {
    var req := RawTraffic(AD_URL, "GET", "image", None);
    AdUrlIsTracker();
    AdDomainIsNotExampleCom();
    AdUrlHasNoPii();
    assert StartsWith(AD_URL, HTTP_PREFIX);
    assert ExtractDomain(host, AD_URL) == "ads.doubleclick.net";
    assert AnalyzeTraffic(req, "example.com", host, locate).violations == Violations(true, true, false, false);
  }

  lemma AdUrlHasNoPii()
    ensures !HasPii(AD_URL)
  {
    assert '@' !in AD_URL && '%' !in AD_URL;
    NoAtSignNoPii(AD_URL);
  }

  lemma CollectUrlIsLower()
    ensures Lower(COLLECT_URL) == COLLECT_URL
  {
    assert HasNoUpperCase(COLLECT_URL);
    LowerOfLowerCase(COLLECT_URL);
  }

  lemma CollectUrlIsTracker()
    ensures IsTracker(COLLECT_URL)
  {
    CollectUrlIsLower();
    var k := "collect";
    var p := "https://" + "example.com" + "/";
    ContainsSuffix(p, k);
    ContainsAppend(p + k, k, "?email=");
    ContainsAppend(COLLECT_PATH, k, "alice");
    ContainsAppend(COLLECT_PATH + "alice", k, "%40");
    ContainsAppend(COLLECT_PATH + "alice" + "%40", k, "example");
    ContainsAppend(COLLECT_PATH + "alice" + "%40" + "example", k, ".");
    ContainsAppend(COLLECT_PATH + "alice" + "%40" + "example" + ".", k, "com");
    assert KEYWORDS[4] == k;
    TrackerIffKeyword(COLLECT_URL);
  }

  /** The bytes of the escape `%40`, of the character it stands for and of
      the dot. */
  lemma EscapedAtSign()
    ensures Utf8.Encode("%40") == [Percent.PERCENT, 0x34, 0x30]
    ensures Utf8.Encode("@") == [Email.AT]
    ensures Utf8.Encode(".") == [Email.DOT]
  {
  }

  /** Encoding a text in three parts. */
  lemma EncodeAround(pre: string, mid: string, post: string)
    ensures Utf8.Encode(pre + mid + post) == Utf8.Encode(pre) + (Utf8.Encode(mid) + Utf8.Encode(post))
  {
    Utf8.EncodeAppend(pre, mid);
    Utf8.EncodeAppend(pre + mid, post);
  }

  /** A text without `%` encodes to bytes without the escape byte. */
  lemma NoPercentByte(s: string)
    requires '%' !in s
    ensures Percent.PERCENT !in Utf8.Encode(s)
  {
    if Percent.PERCENT in Utf8.Encode(s) {
      Utf8.EncodeAsciiByte(s, Percent.PERCENT);
    }
  }

  /** Decoding replaces the one escape `%40` of a text by `@`. */
  lemma EscapeDecodes(pre: string, post: string)
    requires '%' !in pre && '%' !in post
    ensures Percent.DecodeBytes(Utf8.Encode(pre + "%40" + post)) == Utf8.Encode(pre + "@" + post)
  {
    var plain, tail := Utf8.Encode(pre), Utf8.Encode(post);
    EncodeAround(pre, "%40", post);
    EncodeAround(pre, "@", post);
    EscapedAtSign();
    NoPercentByte(pre);
    NoPercentByte(post);
    var esc: seq<byte> := [Percent.PERCENT, 0x34, 0x30];
    Percent.DecodeBytesPlainPrefix(plain, esc + tail);
    Percent.DecodeBytesEscapePrefix(esc, tail);
    Percent.DecodeBytesWithoutPercent(tail);
  }

  /** Lower-case ASCII letters encode to letter bytes, one each. */
  lemma LettersEncode(w: string)
    requires forall c | c in w :: 'a' <= c <= 'z'
    ensures |Utf8.Encode(w)| == |w|
    ensures forall p | 0 <= p < |w| :: Email.IsLetter(Utf8.Encode(w)[p])
  {
    assert forall i | 0 <= i < |w| :: w[i] in w;
    Utf8.EncodeAscii(w);
  }

  /** Letter runs around an `@` and a `.` form a match after any prefix. */
  lemma MatchOfParts(x: seq<byte>, l: seq<byte>, d: seq<byte>, tl: seq<byte>)
    requires |l| >= 1 && |d| >= 1 && |tl| >= 2
    requires forall p | 0 <= p < |l| :: Email.IsLetter(l[p])
    requires forall p | 0 <= p < |d| :: Email.IsLetter(d[p])
    requires forall p | 0 <= p < |tl| :: Email.IsLetter(tl[p])
    ensures Email.ContainsEmail(x + l + [Email.AT] + d + [Email.DOT] + tl)
  {
    var t := x + l + [Email.AT] + d + [Email.DOT] + tl;
    var at := |x| + |l|;
    var dot := at + 1 + |d|;
    forall p | |x| <= p < at
      ensures Email.IsLocalByte(t[p])
    {
      assert t[p] == l[p - |x|];
    }
    forall p | at < p < dot
      ensures Email.IsDomainByte(t[p])
    {
      assert t[p] == d[p - at - 1];
    }
    forall p | dot < p < |t|
      ensures Email.IsLetter(t[p])
    {
      assert t[p] == tl[p - dot - 1];
    }
    assert Email.MatchAt(t, |x|, at, dot, |t|);
  }

  /** `local@domain.tld` in lower-case letters, after any text, is found. */
  lemma LowerCaseEmailFound(pre: string, local: string, domain: string, tld: string)
    requires |local| >= 1 && |domain| >= 1 && |tld| >= 2
    requires forall c | c in local :: 'a' <= c <= 'z'
    requires forall c | c in domain :: 'a' <= c <= 'z'
    requires forall c | c in tld :: 'a' <= c <= 'z'
    ensures Email.ContainsEmail(Utf8.Encode(pre + local + "@" + domain + "." + tld))
  {
    LettersEncode(local);
    LettersEncode(domain);
    LettersEncode(tld);
    EncodeAddress(pre, local, domain, tld);
    MatchOfParts(Utf8.Encode(pre), Utf8.Encode(local), Utf8.Encode(domain), Utf8.Encode(tld));
  }

  /** The bytes of `pre` followed by an address, part by part. */
  lemma EncodeAddress(pre: string, local: string, domain: string, tld: string)
    ensures Utf8.Encode(pre + local + "@" + domain + "." + tld)
         == Utf8.Encode(pre) + Utf8.Encode(local) + [Email.AT] + Utf8.Encode(domain) + [Email.DOT] + Utf8.Encode(tld)
  {
    EscapedAtSign();
    Utf8.EncodeAppend(pre, local);
    Utf8.EncodeAppend(pre + local, "@");
    Utf8.EncodeAppend(pre + local + "@", domain);
    Utf8.EncodeAppend(pre + local + "@" + domain, ".");
    Utf8.EncodeAppend(pre + local + "@" + domain + ".", tld);
  }

  /** The escaped `@` of `COLLECT_URL` is decoded and the address found. */
  lemma EncodedEmailIsFound()
    ensures HasPii(COLLECT_URL)
  {
    var pre := COLLECT_PATH + "alice";
    var post := "example" + "." + "com";
    assert '%' !in pre && '%' !in post;
    assert COLLECT_URL == pre + "%40" + post;
    EscapeDecodes(pre, post);
    var decoded := COLLECT_PATH + "alice" + "@" + "example" + "." + "com";
    assert pre + "@" + post == decoded;
    Utf8.EncodeValid(decoded);
    PiiScansDecodedText(COLLECT_URL);
    LowerCaseEmailFound(COLLECT_PATH, "alice", "example", "com");
  }

  /** The collection endpoint is reached over HTTPS. */
  lemma CollectUrlIsHttps()
    ensures !StartsWith(COLLECT_URL, HTTP_PREFIX)
  {
    assert COLLECT_URL[4] != HTTP_PREFIX[4];
  }

  /** A first-party collection endpoint with a percent-encoded email in its
      query: a hidden first-party tracker and a PII leak, and no transport
      violation. */
  lemma EncodedEmailRequest(host: HostParser, locate: Locator)
    requires host(COLLECT_URL) == Some("example.com")
    ensures var u := AnalyzeTraffic(RawTraffic(COLLECT_URL, "GET", "xhr", None), "example.com", host, locate);
      && u.isTracker
      && u.violations == [Violation(HiddenFirstPartyTracker, Medium), Violation(PiiEmailLeak, Critical)]
  {
    CollectUrlIsTracker();
    EncodedEmailIsFound();
    ContainsSelf("example.com");
    CollectUrlIsHttps();
    assert ExtractDomain(host, COLLECT_URL) == "example.com";
    var req := RawTraffic(COLLECT_URL, "GET", "xhr", None);
    assert AnalyzeTraffic(req, "example.com", host, locate).violations == Violations(false, true, true, true);
  }
}
