/**
 * The content script: the guards that decide whether a page is scanned, and
 * the keyword scan that asks the background script to redirect the tab when
 * the page text contains a blocked keyword as a whole word.
 */
module Content {
  import opened Wrappers
  import opened Text
  import opened Storage
  import opened Regex
  import Background

  /** The initial guards: blocking is not switched off, a non-empty keyword
      list is stored, and the page's hostname matches no allowed entry (the
      same exact-or-subdomain rule as the background script). */
  predicate ShouldScan(stored: Area, hostname: string) {
    && FlagAt(stored, IsBlockingEnabled) != Some(false)
    && ListAt(stored, BlockedKeywords).Some?
    && |ListAt(stored, BlockedKeywords).value| > 0
    && !Background.MatchesAny(hostname, ListAt(stored, AllowedSites))
  }

  /** `keyword && keyword.trim()`: empty and blank keywords are skipped. */
  predicate Scannable(keyword: string) {
    keyword != [] && Trim(keyword) != []
  }

  /** A keyword hits the page text when it is scannable and, both lowercased,
      the keyword occurs in the text as a whole word. */
  ghost predicate Hits(keyword: string, text: string) {
    Scannable(keyword) && exists p :: WholeWordAt(Lower(keyword), Lower(text), p)
  }

  /** A scannable keyword hits exactly when the content script's test of its
      escaped `\b...\b` pattern succeeds on the lowercased text. */
  lemma HitsIsRegexTest(keyword: string, text: string)
    ensures Hits(keyword, text) <==> Scannable(keyword) && Test(KeywordPattern(Lower(keyword)), Lower(text))
  {
    KeywordTestIsWholeWord(Lower(keyword), Lower(text));
  }

  /** The reason sent with a keyword block, quoting the keyword as stored. */
  function KeywordReason(keyword: string): (r: string)
    ensures |r| == |keyword| + 19
    ensures r[..18] == "Content Keyword: \"" && r[|r| - 1] == '"'
    ensures r[18..|r| - 1] == keyword
  {
    "Content Keyword: \"" + keyword + "\""
  }

  /** The first keyword at or after position `from`, in list order, for
      which `hits` holds. */
  ghost function FirstFrom(hits: string -> bool, keywords: seq<string>, from: nat): (r: Option<nat>)
    requires from <= |keywords|
    ensures r.Some? ==> from <= r.value < |keywords| && hits(keywords[r.value])
    ensures r.Some? ==> forall j :: from <= j < r.value ==> !hits(keywords[j])
    ensures r.None? <==> forall j :: from <= j < |keywords| ==> !hits(keywords[j])
    decreases |keywords| - from
  {
    if from == |keywords| then None
    else if hits(keywords[from]) then Some(from)
    else FirstFrom(hits, keywords, from + 1)
  }

  /** The first keyword, in list order, that hits the text. */
  ghost function FirstHit(keywords: seq<string>, text: string): Option<nat> {
    FirstFrom(k => Hits(k, text), keywords, 0)
  }

  /** A hitting keyword with no hitting keyword before it is the first hit. */
  lemma FirstHitAt(keywords: seq<string>, text: string, i: nat)
    requires i < |keywords| && Hits(keywords[i], text)
    requires forall j :: 0 <= j < i ==> !Hits(keywords[j], text)
    ensures FirstHit(keywords, text) == Some(i)
  {
  }

  /** The message the scan sends for a page whose body has the given text
      (None when the page has no body): one for the first hitting keyword, or
      none. */
  ghost function ScanResult(body: Option<string>, keywords: seq<string>): (r: Option<Background.Message>)
    ensures r.Some? ==> body.Some? && r.value.action == Background.KeywordAction
    ensures r.Some? ==>
      exists i :: 0 <= i < |keywords| && Hits(keywords[i], body.value) && r.value.keyword == Some(KeywordReason(keywords[i]))
    ensures r.None? <==> body.None? || forall k :: k in keywords ==> !Hits(k, body.value)
  {
    if body.None? then None
    else match FirstHit(keywords, body.value)
      case None => None
      case Some(i) => Some(Background.Message(Background.KeywordAction, Some(KeywordReason(keywords[i]))))
  }

  /** findBlockedKeywords: scans the keywords in list order with the escaped
      `\b...\b` regular expression and returns the message for the first hit. */
  method FindBlockedKeywords(body: Option<string>, keywords: seq<string>)
    returns (sent: Option<Background.Message>)
    ensures sent == ScanResult(body, keywords)
  {
    if body.None? {
      return None;
    }
    var pageText := Lower(body.value);
    for i := 0 to |keywords|
      invariant forall j :: 0 <= j < i ==> !Hits(keywords[j], body.value)
    {
      var keyword := keywords[i];
      if keyword != [] && Trim(keyword) != [] {
        var escaped := Escape(Lower(keyword));
        var pattern := "\\b" + escaped + "\\b";
        assert pattern == KeywordPattern(Lower(keyword));
        HitsIsRegexTest(keyword, body.value);
        if Test(pattern, pageText) {
          FirstHitAt(keywords, body.value, i);
          return Some(Background.Message(Background.KeywordAction, Some(KeywordReason(keyword))));
        }
      }
    }
    return None;
  }

  /** The content script on a page with the given hostname and body text:
      the guards, then the scan. */
  method RunContentScript(stored: Area, hostname: string, body: Option<string>)
    returns (sent: Option<Background.Message>)
    ensures !ShouldScan(stored, hostname) ==> sent == None
    ensures ShouldScan(stored, hostname) ==>
      sent == ScanResult(body, ListAt(stored, BlockedKeywords).value)
  {
    var enabled := FlagAt(stored, IsBlockingEnabled);
    var keywords := ListAt(stored, BlockedKeywords);
    if enabled == Some(false) || keywords.None? || |keywords.value| == 0 {
      return None;
    }
    var allowed := ListAt(stored, AllowedSites);
    if allowed.Some? && exists e :: e in allowed.value && Background.MatchesEntry(hostname, e) {
      return None;
    }
    sent := FindBlockedKeywords(body, keywords.value);
  }

  /** No scan happens when blocking is switched off, when no keyword list is
      stored or it is empty, or when the hostname is allowlisted. */
  lemma NoScanCases(stored: Area, hostname: string, allowed: string)
    ensures FlagAt(stored, IsBlockingEnabled) == Some(false) ==> !ShouldScan(stored, hostname)
    ensures ListAt(stored, BlockedKeywords) in {None, Some([])} ==> !ShouldScan(stored, hostname)
    ensures (&& ListAt(stored, AllowedSites).Some?
             && allowed in ListAt(stored, AllowedSites).value
             && Background.MatchesEntry(hostname, allowed))
            ==> !ShouldScan(stored, hostname)
  {
  }

  /** On a page the content script scans, neither the kill switch nor the
      allowlist exempts the host from the background's decision: a request
      to it is redirected exactly when it is not the extension's own and a
      blocked entry matches. */
  lemma ScannedHostNotExempt(stored: Area, hostname: string, baseUrl: string, url: string)
    requires ShouldScan(stored, hostname)
    ensures Background.BlockRequest(stored, baseUrl, url, hostname).Redirect? <==>
      !StartsWith(url, baseUrl) && Background.MatchesAny(hostname, ListAt(stored, BlockedDomains))
  {
  }

  /** A blank keyword never hits. */
  lemma BlankNeverHits(keyword: string, text: string)
    requires forall i :: 0 <= i < |keyword| ==> IsWhitespace(keyword[i])
    ensures !Hits(keyword, text)
  {
    TrimEmptyIffBlank(keyword);
  }

  /** Matching ignores ASCII case on both sides. */
  lemma CaseInsensitive(keyword: string, text: string)
    ensures Hits(keyword, text) == Hits(Lower(keyword), Lower(text))
  {
    LowerIdempotent(keyword);
    LowerIdempotent(text);
    LowerKeepsWhitespace(keyword);
    TrimEmptyIffBlank(keyword);
    TrimEmptyIffBlank(Lower(keyword));
  }

  /** Whole-word matching: "sex" does not hit inside "Essex". */
  lemma NoHitInsideWord()
    ensures !Hits("sex", "Essex")
  {
    var t := Lower("Essex");
    assert t[0] == 'e' && t[1] == 's' && t[2] == 's' && t[3] == 'e';
    LowerOfLowercase("sex");
    forall p | 0 <= p <= |t|
      ensures !WholeWordAt("sex", t, p)
    {
      if p == 2 {
        assert !AtBoundary(t, 2);
      } else if p + 3 <= |t| {
        assert t[p..p + 3][0] == t[p] && t[p..p + 3][1] == t[p + 1];
      }
    }
  }

  /** ...but it hits the separate word, whatever its case. */
  lemma HitSeparateWord()
    ensures Hits("sex", "Sex ed")
  {
    var u := Lower("Sex ed");
    assert u[0] == 's' && u[1] == 'e' && u[2] == 'x' && u[3] == ' ';
    LowerOfLowercase("sex");
    assert Trim("sex") != [] by {
      TrimEmptyIffBlank("sex");
      assert !IsWhitespace("sex"[0]);
    }
    assert u[0..3] == "sex";
    assert WholeWordAt("sex", u, 0);
  }

  /** \b needs a word character on one side, so a keyword that ends with a
      non-word character does not hit where it is followed by a space or the
      end of the text: "c++" does not hit "i like c++". */
  lemma NonWordEdgeKeyword()
    ensures !Hits("c++", "i like c++")
  {
    var t := "i like c++";
    LowerOfLowercase(t);
    LowerOfLowercase("c++");
    forall p | 0 <= p <= |t|
      ensures !WholeWordAt("c++", t, p)
    {
      if p == 7 {
        assert !AtBoundary(t, 10);
      } else if p + 3 <= |t| {
        assert t[p..p + 3] != "c++" by {
          assert t[p..p + 3][0] == t[p] && t[p..p + 3][1] == t[p + 1];
        }
      }
    }
  }

  /** A hit makes the background script send the tab to the block page with
      the reason naming the first hitting keyword as stored. */
  lemma KeywordHitRedirectsTab(body: Option<string>, keywords: seq<string>, extensionId: string,
                               baseUrl: string, tabId: int)
    requires body.Some? && FirstHit(keywords, body.value).Some?
    ensures ScanResult(body, keywords).Some?
    ensures var i := FirstHit(keywords, body.value).value;
      Background.OnMessage(extensionId, baseUrl, ScanResult(body, keywords).value,
                           Background.Sender(Some(extensionId), Some(tabId)))
      == Some(Background.TabUpdate(tabId, baseUrl + Background.BlockPagePath, KeywordReason(keywords[i])))
  {
  }
}
