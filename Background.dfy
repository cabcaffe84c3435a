/**
 * The background script: the defaults written when the extension is
 * installed, the navigation decision taken for every top-level and frame
 * request, and the handler for redirect requests sent by the content script.
 */
module Background {
  import opened Wrappers
  import opened Text
  import opened Storage

  /** The block page, relative to the extension's base URL. */
  const BlockPagePath := "block_page/block.html"

  /** The action a content script sends when a page contains a blocked keyword. */
  const KeywordAction := "blockPageByKeyword"

  const DefaultBlockPageMessage := "I don't need this."

  /** What onInstalled fills in for settings that are not stored yet. */
  const InstallDefaults: Area := map[
    BlockedDomains := List([]), BlockedKeywords := List([]), AllowedSites := List([]),
    BlockPageMessage := Str(DefaultBlockPageMessage), IsBlockingEnabled := Flag(true),
    Theme := Str("light")]

  /** onInstalled: `{ ...defaults, ...data }`. Every stored setting is kept as
      it is; a missing setting is taken from the defaults. */
  function OnInstalled(stored: Area): (r: Area)
    ensures forall k :: k in stored ==> k in r && r[k] == stored[k]
    ensures forall k :: k !in stored ==> (k in r <==> k in InstallDefaults)
    ensures forall k :: k !in stored && k in InstallDefaults ==> r[k] == InstallDefaults[k]
  {
    InstallDefaults + stored
  }

  /** Installing over an installed extension changes nothing. */
  lemma OnInstalledIdempotent(stored: Area)
    ensures OnInstalled(OnInstalled(stored)) == OnInstalled(stored)
  {
  }

  /** After installation the three lists, the message, the switch and the
      theme are all present; well-typed settings stay well-typed. */
  lemma OnInstalledComplete(stored: Area)
    requires WellTyped(stored)
    ensures WellTyped(OnInstalled(stored))
    ensures ListAt(OnInstalled(stored), BlockedDomains).Some?
    ensures ListAt(OnInstalled(stored), BlockedKeywords).Some?
    ensures ListAt(OnInstalled(stored), AllowedSites).Some?
    ensures FlagAt(OnInstalled(stored), IsBlockingEnabled).Some?
  {
  }

  /** A domain matches a list entry when it is the entry or a subdomain of it. */
  predicate MatchesEntry(domain: string, entry: string) {
    domain == entry || EndsWith(domain, "." + entry)
  }

  /** `list && list.some(entry => MatchesEntry(domain, entry))`: an absent list
      matches nothing. */
  predicate MatchesAny(domain: string, list: Option<seq<string>>) {
    list.Some? && exists e :: e in list.value && MatchesEntry(domain, e)
  }

  /** An absent list matches nothing, and pushing an entry onto a list adds
      exactly the domains that entry matches. */
  lemma MatchesAnyPush(domain: string, list: seq<string>, entry: string)
    ensures !MatchesAny(domain, None)
    ensures MatchesAny(domain, Some(list + [entry])) <==> MatchesAny(domain, Some(list)) || MatchesEntry(domain, entry)
  {
    if MatchesEntry(domain, entry) {
      assert entry in list + [entry];
    }
    if MatchesAny(domain, Some(list)) {
      var e :| e in list && MatchesEntry(domain, e);
      assert e in list + [entry];
    }
  }

  /** A match is a suffix match: the entry ends the domain, and anything before
      it ends with a dot. */
  lemma {:induction false} MatchIsLabelSuffix(domain: string, entry: string)
    ensures MatchesEntry(domain, entry) <==>
      EndsWith(domain, entry)
      && (|domain| == |entry| || domain[|domain| - |entry| - 1] == '.')
  {
    var n, m := |domain|, |entry|;
    if EndsWith(domain, entry) && n != m && domain[n - m - 1] == '.' {
      assert domain[n - m - 1..] == "." + entry by {
        assert domain[n - m - 1..] == [domain[n - m - 1]] + domain[n - m..];
      }
    }
    if EndsWith(domain, "." + entry) {
      assert domain[n - m..] == domain[n - m - 1..][1..];
    }
  }

  /** Subdomains of subdomains match: blocking an entry blocks its whole
      subtree at any depth. */
  lemma {:induction false} MatchTransitive(a: string, b: string, c: string)
    requires MatchesEntry(a, b) && MatchesEntry(b, c)
    ensures MatchesEntry(a, c)
  {
    MatchIsLabelSuffix(a, b);
    MatchIsLabelSuffix(b, c);
    MatchIsLabelSuffix(a, c);
    if a != b && b != c {
      var na, nb, nc := |a|, |b|, |c|;
      assert a[na - nc..] == a[na - nb..][nb - nc..];
      assert a[na - nc - 1] == a[na - nb..][nb - nc - 1];
    }
  }

  /** Bare containment is not a match. */
  lemma ContainmentIsNotMatch()
    ensures !MatchesEntry("myads.com", "ads.com")
    ensures !MatchesEntry("myads.com.evil.com", "ads.com")
    ensures MatchesEntry("x.ads.com", "ads.com")
  {
    assert "myads.com"[2..] == "ads.com";
    assert "myads.com"[1] != '.';
    assert "x.ads.com"[1..] == ".ads.com";
  }

  /** The verdict of blockRequestHandler: let the request through, or send the
      tab to the block page with a reason. */
  datatype Verdict = Allow | Redirect(target: string, reason: string)

  /** blockRequestHandler for a request to url whose hostname is domain;
      baseUrl is the extension's own base URL. */
  function BlockRequest(stored: Area, baseUrl: string, url: string, domain: string): (v: Verdict)
    ensures v.Redirect? ==> !StartsWith(url, baseUrl) && StartsWith(v.target, baseUrl)
    ensures v.Redirect? ==>
      MatchesAny(domain, ListAt(stored, BlockedDomains)) && !MatchesAny(domain, ListAt(stored, AllowedSites))
  {
    if FlagAt(stored, IsBlockingEnabled) == Some(false) then Allow
    else if StartsWith(url, baseUrl) then Allow
    else if MatchesAny(domain, ListAt(stored, AllowedSites)) then Allow
    else if MatchesAny(domain, ListAt(stored, BlockedDomains)) then
      var target := baseUrl + BlockPagePath;
      assert target[..|baseUrl|] == baseUrl;
      Redirect(target, "Blocked Domain: " + domain)
    else Allow
  }

  /** Only a stored false turns blocking off; then nothing is redirected. */
  lemma KillSwitch(stored: Area, baseUrl: string, url: string, domain: string)
    requires FlagAt(stored, IsBlockingEnabled) == Some(false)
    ensures BlockRequest(stored, baseUrl, url, domain) == Allow
  {
  }

  /** An absent switch leaves blocking on: with no switch stored, a blocked
      domain is still redirected. */
  lemma AbsentSwitchBlocks(stored: Area, baseUrl: string, url: string, domain: string, entry: string)
    requires IsBlockingEnabled !in stored && !StartsWith(url, baseUrl)
    requires !MatchesAny(domain, ListAt(stored, AllowedSites))
    requires ListAt(stored, BlockedDomains).Some? && entry in ListAt(stored, BlockedDomains).value
    requires MatchesEntry(domain, entry)
    ensures BlockRequest(stored, baseUrl, url, domain).Redirect?
  {
  }

  /** The extension's own pages are never redirected. */
  lemma OwnPagesAllowed(stored: Area, baseUrl: string, url: string, domain: string)
    requires StartsWith(url, baseUrl)
    ensures BlockRequest(stored, baseUrl, url, domain) == Allow
  {
  }

  /** The block page itself is never redirected, so a redirect cannot loop. */
  lemma RedirectTargetAllowed(stored: Area, baseUrl: string, url: string, domain: string, domain': string)
    requires BlockRequest(stored, baseUrl, url, domain).Redirect?
    ensures BlockRequest(stored, baseUrl, BlockRequest(stored, baseUrl, url, domain).target, domain') == Allow
  {
    var target := baseUrl + BlockPagePath;
    assert target[..|baseUrl|] == baseUrl;
  }

  /** The allowlist wins: an allowlisted domain is let through even when it
      also matches a blocked entry. */
  lemma AllowlistWins(stored: Area, baseUrl: string, url: string, domain: string, allowed: string)
    requires ListAt(stored, AllowedSites).Some? && allowed in ListAt(stored, AllowedSites).value
    requires MatchesEntry(domain, allowed)
    ensures BlockRequest(stored, baseUrl, url, domain) == Allow
  {
  }

  /** A redirect happens exactly for a domain that matches a blocked entry and
      no allowed entry, while blocking is on and the URL is not the extension's
      own; its target is the block page and its reason names the domain. */
  lemma RedirectExactly(stored: Area, baseUrl: string, url: string, domain: string)
    ensures var v := BlockRequest(stored, baseUrl, url, domain);
      v.Redirect? <==>
        && FlagAt(stored, IsBlockingEnabled) != Some(false)
        && !StartsWith(url, baseUrl)
        && !MatchesAny(domain, ListAt(stored, AllowedSites))
        && MatchesAny(domain, ListAt(stored, BlockedDomains))
    ensures var v := BlockRequest(stored, baseUrl, url, domain);
      v.Redirect? ==> v.target == baseUrl + BlockPagePath && v.reason == "Blocked Domain: " + domain
  {
  }

  /** Unlisted domains, and every domain when both lists are absent, are let
      through. */
  lemma UnlistedAllowed(stored: Area, baseUrl: string, url: string, domain: string)
    requires !MatchesAny(domain, ListAt(stored, BlockedDomains))
      || (BlockedDomains !in stored && AllowedSites !in stored)
    ensures BlockRequest(stored, baseUrl, url, domain) == Allow
  {
  }

  /** On freshly installed settings nothing is blocked. */
  lemma FreshInstallAllowsAll(baseUrl: string, url: string, domain: string)
    ensures BlockRequest(OnInstalled(map[]), baseUrl, url, domain) == Allow
  {
    assert ListAt(OnInstalled(map[]), BlockedDomains) == Some([]);
  }

  /** A runtime message: its action and, for keyword blocks, the reason text. */
  datatype Message = Message(action: string, keyword: Option<string>)

  /** Who sent a message: the sending extension's id and the tab it came from
      (both absent for some senders). */
  datatype Sender = Sender(id: Option<string>, tabId: Option<int>)

  /** The navigation `tabs.update` performs: the tab, the block page and the
      unencoded reason. */
  datatype TabUpdate = TabUpdate(tabId: int, target: string, reason: string)

  /** What `encodeURIComponent(message.keyword)` encodes: an absent keyword
      becomes the text "undefined". */
  function ReasonOf(keyword: Option<string>): string {
    if keyword.Some? then keyword.value else "undefined"
  }

  /** The onMessage listener. A message from another sender is ignored; a
      blockPageByKeyword message from a tab sends that tab to the block page.
      A sender without a tab makes the update throw, which is caught. */
  function OnMessage(extensionId: string, baseUrl: string, message: Message, sender: Sender): (u: Option<TabUpdate>)
    ensures u.Some? <==> sender.id == Some(extensionId) && message.action == KeywordAction && sender.tabId.Some?
    ensures u.Some? ==> u.value == TabUpdate(sender.tabId.value, baseUrl + BlockPagePath, ReasonOf(message.keyword))
  {
    if sender.id != Some(extensionId) then None
    else if message.action == KeywordAction then
      if sender.tabId.Some? then Some(TabUpdate(sender.tabId.value, baseUrl + BlockPagePath, ReasonOf(message.keyword)))
      else None
    else None
  }
}
