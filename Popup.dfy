/**
 * The toolbar popup: it reads the settings with its own defaults, shows the
 * current site, blocks or allows it with one click (moving it out of the
 * other list), and switches blocking on and off.
 */
module Popup {
  import opened Wrappers
  import opened Text
  import opened Storage
  import Background
  import Content

  /** The defaults the popup reads the settings with. */
  const PopupDefaults: Area := map[
    BlockedDomains := List([]),
    AllowedSites := List([]),
    IsBlockingEnabled := Flag(true),
    Theme := Str("light"),
    UsageStats := Stats(0)
  ]

  /** `list.filter(site => site !== host)`: the list without any copy of host,
      the rest in order. */
  function Without(s: seq<string>, host: string): (r: seq<string>)
    ensures host !in r
    ensures forall x :: x in r <==> x in s && x != host
    ensures |r| <= |s|
  {
    if s == [] then []
    else (if s[0] == host then [] else [s[0]]) + Without(s[1..], host)
  }

  /** Filtering works element by element, so the entries it keeps stay in
      their relative order. */
  lemma {:induction false} WithoutConcat(a: seq<string>, b: seq<string>, host: string)
    ensures Without(a + b, host) == Without(a, host) + Without(b, host)
  {
    if a != [] {
      WithoutConcat(a[1..], b, host);
      assert (a + b)[0] == a[0];
      assert (a + b)[1..] == a[1..] + b;
      var head := if a[0] == host then [] else [a[0]];
      calc {
        Without(a + b, host);
        head + Without(a[1..] + b, host);
        head + (Without(a[1..], host) + Without(b, host));
        (head + Without(a[1..], host)) + Without(b, host);
      }
    } else {
      assert a + b == b;
    }
  }

  /** A list without the host is left exactly as it was. */
  lemma {:induction false} WithoutAbsent(s: seq<string>, host: string)
    requires host !in s
    ensures Without(s, host) == s
  {
    if s != [] {
      WithoutAbsent(s[1..], host);
      assert s == [s[0]] + s[1..];
    }
  }

  /** Filtering takes out every copy of host and nothing else: each other
      entry keeps its number of occurrences. */
  lemma {:induction false} WithoutMultiset(s: seq<string>, host: string)
    ensures multiset(Without(s, host)) == multiset(s)[host := 0]
  {
    if s != [] {
      WithoutMultiset(s[1..], host);
      assert s == [s[0]] + s[1..];
      assert multiset(s) == multiset{s[0]} + multiset(s[1..]);
      DropAllOf(multiset(s[1..]), s[0], host);
      if s[0] == host {
        assert Without(s, host) == Without(s[1..], host);
      } else {
        assert Without(s, host) == [s[0]] + Without(s[1..], host);
      }
    }
  }

  /** Setting the count of h to zero commutes with adding one x. */
  lemma DropAllOf(m: multiset<string>, x: string, h: string)
    ensures (multiset{x} + m)[h := 0] == if x == h then m[h := 0] else multiset{x} + m[h := 0]
  {
  }

  /** The try block of initialize completes: there is an active tab with a
      non-empty URL that is not an about: page, and `new URL` does not throw.
      The parsed hostname is the parameter `parsedHost` (None when `new URL`
      throws); it may be empty, as for file: and data: URLs. */
  predicate TabParsed(tabUrl: Option<string>, parsedHost: Option<string>) {
    tabUrl.Some? && tabUrl.value != [] && !StartsWith(tabUrl.value, "about:") && parsedHost.Some?
  }

  /** The host of the active tab as the popup sees it: the parsed hostname
      when the try block completes, and otherwise the initial empty text. */
  function CurrentHostname(tabUrl: Option<string>, parsedHost: Option<string>): (h: string)
    ensures h != [] ==> tabUrl.Some? && !StartsWith(tabUrl.value, "about:") && parsedHost == Some(h)
    ensures tabUrl.Some? && tabUrl.value != [] && !StartsWith(tabUrl.value, "about:") && parsedHost.Some? ==>
      h == parsedHost.value
  {
    if TabParsed(tabUrl, parsedHost) then parsedHost.value else []
  }

  class PopupPage {
    const store: Store
    var settings: Area
    var currentHostname: string
    var blockDisabled: bool
    var allowDisabled: bool

    /** The settings read with the popup's defaults hold every popup key,
        each with a value of its kind. */
    predicate Valid()
      reads this
    {
      settings.Keys == PopupDefaults.Keys && WellTyped(settings)
    }

    function Blocked(): seq<string>
      reads this
      requires Valid()
    {
      settings[BlockedDomains].items
    }

    function Allowed(): seq<string>
      reads this
      requires Valid()
    {
      settings[AllowedSites].items
    }

    function BlockingOn(): bool
      reads this
      requires Valid()
    {
      settings[IsBlockingEnabled].on
    }

    /** A button is disabled exactly when the current host is already in its
        list. */
    predicate ButtonsMatchLists()
      reads this
      requires Valid()
    {
      blockDisabled == (currentHostname in Blocked()) && allowDisabled == (currentHostname in Allowed())
    }

    /** initialize: reads the settings with the popup's defaults and takes the
        active tab's host. When the try block completes, updateButtonStates
        sets the buttons (and leaves them as the page markup has them,
        `blockInitially` and `allowInitially`, when the host is empty); when
        it throws, the catch disables both buttons. */
    constructor (store: Store, tabUrl: Option<string>, parsedHost: Option<string>,
                 blockInitially: bool, allowInitially: bool)
      requires WellTyped(store.data)
      ensures Valid()
      ensures this.store == store
      ensures settings == GetWithDefaults(store.data, PopupDefaults)
      ensures currentHostname == CurrentHostname(tabUrl, parsedHost)
      ensures currentHostname != [] ==> ButtonsMatchLists()
      ensures !TabParsed(tabUrl, parsedHost) ==> blockDisabled && allowDisabled
      ensures TabParsed(tabUrl, parsedHost) && currentHostname == [] ==>
        blockDisabled == blockInitially && allowDisabled == allowInitially
    {
      this.store := store;
      GetWithDefaultsWellTyped(store.data, PopupDefaults);
      var read := GetWithDefaults(store.data, PopupDefaults);
      settings := read;
      var host := CurrentHostname(tabUrl, parsedHost);
      currentHostname := host;
      if !TabParsed(tabUrl, parsedHost) {
        blockDisabled := true;
        allowDisabled := true;
      } else if host != [] {
        blockDisabled := host in read[BlockedDomains].items;
        allowDisabled := host in read[AllowedSites].items;
      } else {
        blockDisabled := blockInitially;
        allowDisabled := allowInitially;
      }
    }

    /** updateButtonStates: a button is disabled exactly when the current
        host is already in its list; with no current host nothing changes. */
    method UpdateButtonStates()
      requires Valid()
      modifies this
      ensures settings == old(settings) && currentHostname == old(currentHostname)
      ensures currentHostname != [] ==> ButtonsMatchLists()
      ensures currentHostname == [] ==> blockDisabled == old(blockDisabled) && allowDisabled == old(allowDisabled)
    {
      if currentHostname == [] {
        return;
      }
      blockDisabled := currentHostname in settings[BlockedDomains].items;
      allowDisabled := currentHostname in settings[AllowedSites].items;
    }

    /** modifyLists: pushes the host onto the chosen list, filters it out of
        the other one, writes the whole settings object back and updates the
        buttons. Afterwards the host is in the chosen list and not in the
        other; every other setting is as it was. */
    method ModifyLists(listType: string, hostname: string)
      requires Valid()
      modifies this, store
      ensures Valid()
      ensures listType == Name(BlockedDomains) ==>
        && Blocked() == old(Blocked()) + [hostname] && Allowed() == Without(old(Allowed()), hostname)
        && hostname in Blocked() && hostname !in Allowed()
      ensures listType == Name(AllowedSites) ==>
        && Allowed() == old(Allowed()) + [hostname] && Blocked() == Without(old(Blocked()), hostname)
        && hostname in Allowed() && hostname !in Blocked()
      ensures listType != Name(BlockedDomains) && listType != Name(AllowedSites) ==> settings == old(settings)
      ensures forall k :: k in settings && k != BlockedDomains && k != AllowedSites ==>
        settings[k] == old(settings)[k]
      ensures store.data == old(store.data) + settings
      ensures currentHostname == old(currentHostname)
      ensures currentHostname != [] ==> ButtonsMatchLists()
      ensures currentHostname == [] ==> blockDisabled == old(blockDisabled) && allowDisabled == old(allowDisabled)
    {
      var blocked := settings[BlockedDomains].items;
      var allowed := settings[AllowedSites].items;
      if Name(BlockedDomains) == listType {
        settings := settings[BlockedDomains := List(blocked + [hostname])][AllowedSites := List(Without(allowed, hostname))];
      } else if Name(AllowedSites) == listType {
        settings := settings[AllowedSites := List(allowed + [hostname])][BlockedDomains := List(Without(blocked, hostname))];
      }
      store.data := store.data + settings;
      UpdateButtonStates();
    }

    /** The power toggle: records the new state in the settings and stores
        only that flag. */
    method SetPower(checked: bool)
      requires Valid()
      modifies this, store
      ensures Valid()
      ensures settings == old(settings)[IsBlockingEnabled := Flag(checked)]
      ensures BlockingOn() == checked
      ensures store.data == old(store.data)[IsBlockingEnabled := Flag(checked)]
      ensures currentHostname == old(currentHostname)
      ensures blockDisabled == old(blockDisabled) && allowDisabled == old(allowDisabled)
    {
      settings := settings[IsBlockingEnabled := Flag(checked)];
      store.data := store.data[IsBlockingEnabled := Flag(checked)];
    }
  }

  /** A click appends without deduplicating; only the disabled button keeps a
      host from being added twice. A host not yet in the chosen list occurs
      there exactly once afterwards, and in the other list not at all. */
  lemma ClickLeavesHostInOneList(before: seq<string>, other: seq<string>, host: string)
    requires host !in before
    ensures multiset(before + [host])[host] == 1
    ensures host !in Without(other, host)
  {
    assert multiset(before)[host] == 0;
  }

  /** Reading an empty storage gives the popup's defaults: blocking on, both
      lists empty, no blocks counted. */
  lemma DefaultsOnEmptyStorage()
    ensures GetWithDefaults(map[], PopupDefaults) == PopupDefaults
    ensures GetWithDefaults(map[], PopupDefaults)[UsageStats] == Stats(0)
  {
  }

  /** Switching the power off through the popup stops both the request
      blocking and the keyword scan, whatever the lists hold. */
  lemma PowerOffAllowsEverything(stored: Area, baseUrl: string, url: string, domain: string, hostname: string)
    ensures Background.BlockRequest(stored[IsBlockingEnabled := Flag(false)], baseUrl, url, domain) == Background.Allow
    ensures !Content.ShouldScan(stored[IsBlockingEnabled := Flag(false)], hostname)
  {
    assert FlagAt(stored[IsBlockingEnabled := Flag(false)], IsBlockingEnabled) == Some(false);
  }

  /** "Block This Site" on a host inside an allowed domain writes the host to
      the blocked list, yet requests to it are still let through: the popup
      tests list membership exactly, the background script by domain suffix,
      and the allowlist wins. */
  lemma BlockedHostUnderAllowedDomainStaysAllowed(baseUrl: string, url: string)
    ensures var stored := map[BlockedDomains := List(["www.example.com"]), AllowedSites := List(["example.com"])];
      && "www.example.com" !in ListAt(stored, AllowedSites).value
      && Background.BlockRequest(stored, baseUrl, url, "www.example.com") == Background.Allow
  {
    var suffix := "." + "example.com";
    assert "www.example.com" == "www" + suffix;
    assert ("www" + suffix)[3..] == suffix;
    assert Background.MatchesEntry("www.example.com", "example.com");
  }
}
