# LibreShield access-control core in Dafny

LibreShield is a browser extension that blocks distracting sites. This project models its decision logic and proves properties of it:

- **Background script.** The navigation decision (blockRequestHandler), the install-time defaults merge and the keyword-block message filter.
- **Content script.** The guards that decide whether a page is scanned, and the keyword scan. The scan escapes each keyword, builds a `\b...\b` regular expression and reports the first keyword that occurs as a case-insensitive whole word.
- **Options page.** The hex encoding of the password digest, adding items to and removing items from the blocked-domain, blocked-keyword and allowed-site lists, and the password gate: set, unlock, confirm-save, change, remove and reset.
- **Toolbar popup.** Reading settings with defaults, the block/allow buttons that move the current host between the two lists, and the power toggle.

## Modules

- **Wrappers** is the `Option` type.
- **Text** models JavaScript's `trim` (the exact ECMAScript whitespace set), `split` on one character and `join`, `startsWith` and `endsWith`, ASCII lowercasing and the `\b` word characters.
- **Storage** is `browser.storage.local` as a map from setting keys to values.
  - Typed getters read a missing or wrong-typed value as absent.
  - `GetWithDefaults` is `get(defaults)`.
  - The `Store` class holds the state that the options page and the popup change.
- **Background** holds the decision chain `BlockRequest`, `OnInstalled` and `OnMessage`.
- **Regex** models only the part of the regular-expression language the content script builds.
  - That part is `\b`, escaped metacharacters and plain characters.
  - It gives `RegExp.prototype.test` its leftmost-search meaning.
  - It proves that the escaped keyword pattern matches exactly where the keyword occurs as a whole word.
- **Content** holds the scan guards, the `FindBlockedKeywords` loop (proved against the ghost function `ScanResult`) and the whole content script.
- **Options** holds the digest encoding, the `ItemList` class (addItem and removeItem change its `items` and the store) and the `OptionsPage` class (the password handlers change the store and the visible view).
- **Popup** holds the `PopupPage` class: `ModifyLists`, `UpdateButtonStates`, `SetPower` and the defaults it reads with.

Two facts about the code shape the model:

- The extension stores the password as a single unsalted SHA-256 hex digest, with no slow, salted key derivation.
- It has no time-boxed overrides, no login throttling and no block counter updates. Only the popup reads `usageStats`, and only for display.

## Model

| member | source | states |
|---|---|---|
| Storage.GetWithDefaults | popup/popup.js:13-19 | reading with defaults gives exactly the defaults' keys; a stored value wins, a missing one reads as its default |
| Background.OnInstalled | background.js:2-9 | every stored setting is kept; a missing setting is taken from the defaults (empty lists, the default message, blocking on, theme light) |
| Background.OnInstalledIdempotent | background.js:4-8 | merging the defaults a second time changes nothing |
| Background.OnInstalledComplete | background.js:4-8 | after installation the three lists and the switch are present, and well-typed settings stay well-typed |
| Background.MatchIsLabelSuffix | background.js:20-24 | MatchesEntry, the `===`-or-`endsWith('.' + entry)` test: a domain matches an entry iff the entry ends the domain and is either the whole domain or preceded by a dot |
| Background.MatchesAnyPush | background.js:20-24 | MatchesAny, the `list && list.some(...)` test: an absent list matches nothing, and pushing an entry onto a list adds exactly the domains that entry matches |
| Background.MatchTransitive | background.js:23-24 | a subdomain of a matching subdomain matches too |
| Background.ContainmentIsNotMatch | background.js:20-24 | bare containment is not a match: myads.com does not match ads.com, and myads.com.evil.com and x.ads.com show the other edges |
| Background.BlockRequest | background.js:12-29 | a redirect never concerns the extension's own URLs, leads to a page under the extension's base URL, and happens only for a domain that matches a blocked entry and no allowed entry |
| Background.KillSwitch | background.js:13-14 | a stored false for isBlockingEnabled allows every request whatever the lists hold |
| Background.AbsentSwitchBlocks | background.js:13-26 | with no switch stored, a non-allowlisted domain that matches a blocked entry is still redirected |
| Background.OwnPagesAllowed | background.js:15 | a URL starting with the extension's base URL is allowed before any list is read |
| Background.RedirectTargetAllowed | background.js:15-26 | the block page a redirect leads to is itself always allowed, so redirects cannot loop |
| Background.AllowlistWins | background.js:20-21 | a domain matching an allowed entry is allowed even when it also matches a blocked entry |
| Background.RedirectExactly | background.js:12-29 | BlockRequest, exactly: a redirect happens iff blocking is not switched off, the URL is not the extension's own, no allowed entry matches and a blocked entry matches; it goes to block_page/block.html with reason "Blocked Domain: " + domain |
| Background.UnlistedAllowed | background.js:20-28 | a domain matching no blocked entry, and every domain when both lists are absent, is allowed |
| Background.FreshInstallAllowsAll | background.js:4-28 | on freshly installed settings no request is redirected |
| Background.OnMessage | background.js:33-49 | a tab update happens iff the sender's id is the extension's, the action is blockPageByKeyword and the sender has a tab; it sends that tab to the block page with the message's keyword as reason |
| Regex.Escape | content.js:39 | escaping at most doubles the keyword's length |
| Regex.ParseEscapedChar | content.js:39-40 | one escaped character, plain or metacharacter, parses as one literal token |
| Regex.ParseEscaped | content.js:39-40 | Parse, the reading of a pattern of the fragment: an escaped string parses back to one literal per original character, followed by the rest of the pattern |
| Regex.KeywordPatternParses | content.js:39-40 | KeywordPattern, `\\b${escaped}\\b`: the built pattern is a word boundary, the keyword's characters as literals, and a word boundary |
| Regex.SearchFinds | content.js:42 | Search, the unanchored search of RegExp.prototype.test: it succeeds iff some start position matches |
| Regex.MatchLiterals | content.js:40-42 | literal tokens match exactly the same characters in the text |
| Regex.KeywordMatchAt | content.js:40-42 | MatchAt with AtBoundary as \b: the keyword pattern matches at a position iff the keyword occurs there with a word boundary on both sides |
| Regex.BoundaryAtTextEdges | content.js:40 | AtBoundary at the ends of the text: \b holds at the start or the end exactly next to a word character, so an empty text has none |
| Regex.KeywordTestIsWholeWord | content.js:39-42 | Test, `new RegExp(pattern).test(text)`: testing the escaped keyword pattern succeeds iff the keyword occurs somewhere as a whole word |
| Text.Trim | content.js:37 | trim removes exactly the leading and trailing ECMAScript whitespace; the result is a slice of the input that does not end in whitespace |
| Text.TrimEmptyIffBlank | content.js:37 | a string trims to empty iff it is all whitespace |
| Text.TrimIdempotent | options/options.js:137-138 | trimming twice is trimming once |
| Text.Split | options/options.js:138 | split gives at least one part, no part contains the separator, and joining the parts restores the input |
| Text.SplitJoin | options/options.js:138 | splitting a join of separator-free parts gives back the parts |
| Text.Lower | content.js:34 | lowercasing keeps the length, maps each character to its ASCII lowercase form (LowerChar: an uppercase letter moves down by 32, every other character stays) and leaves no uppercase ASCII letter |
| Text.LowerOfLowercase | content.js:34-39 | text with no uppercase letter is its own lowercase form |
| Text.LowerIdempotent | content.js:34-39 | lowercasing twice is lowercasing once |
| Content.FirstFrom | content.js:36-52 | the first keyword in list order that hits, with no hit before it, or none iff no keyword hits |
| Content.FirstHitAt | content.js:36-49 | a hitting keyword with no hitting keyword before it is the first hit |
| Content.HitsIsRegexTest | content.js:34-42 | Hits: a keyword hits iff it is non-blank and the test of its lowercased, escaped \b...\b pattern succeeds on the lowercased text |
| Content.ScanResult | content.js:36-49 | a message is sent only for a page with a body; it is the keyword-block action naming some keyword in the list that hits; none is sent iff there is no body or no keyword hits |
| Content.KeywordReason | content.js:46 | the reason is `Content Keyword: "` followed by the keyword exactly as stored and a closing quote |
| Content.FindBlockedKeywords | content.js:30-53 | the loop sends the message for the first hitting keyword in list order, with reason Content Keyword: "<keyword as stored>", and sends nothing when nothing hits or there is no body |
| Content.RunContentScript | content.js:3-76 | the guards stop the scan when blocking is off, the keyword list is missing or empty, or the hostname is allowlisted; otherwise it sends what the scan finds |
| Content.NoScanCases | content.js:7-23 | ShouldScan, the guards: each guard on its own prevents the scan, including an allowlisted subdomain |
| Content.ScannedHostNotExempt | content.js:7-23 | on a page that passes the guards, neither the switch nor the allowlist exempts the host from the background's decision: a request to it is redirected iff it is not the extension's own and a blocked entry matches |
| Content.BlankNeverHits | content.js:37 | an empty or all-whitespace keyword never hits |
| Content.CaseInsensitive | content.js:34-39 | a keyword hits a text iff its lowercase form hits the lowercased text |
| Content.NoHitInsideWord | content.js:39-42 | "sex" does not hit inside "Essex" |
| Content.HitSeparateWord | content.js:34-42 | "sex" hits the separate word in "Sex ed", whatever its case |
| Content.NonWordEdgeKeyword | content.js:40-42 | a keyword ending in a non-word character ("c++") does not hit the text "i like c++", because \b needs a word character beside it |
| Content.KeywordHitRedirectsTab | content.js:43-48 | a hit makes the background script send the tab to the block page with the first hitting keyword's reason |
| Options.HexDigest | options/options.js:23-24 | the encoding has two characters per byte, all lowercase hex digits |
| Options.ByteHexIsTwoDigits | options/options.js:24 | ByteHex: toString(16) padded to two digits is the high nibble digit followed by the low nibble digit |
| Options.ToHexString | options/options.js:24 | toString(16) of a byte has one digit below 16 and two from 16 on, ends in the low nibble's digit and has no leading zero |
| Options.PadStart2 | options/options.js:24 | padStart(2, '0') keeps a text of two or more characters and puts zeros in front of a shorter one to make two |
| Options.DecodeHexDigest | options/options.js:24 | decoding the hex text gives back the digest bytes |
| Options.HexDigestInjective | options/options.js:23-24 | different digests give different hex texts |
| Options.DecodeTwoDigits | options/options.js:24 | two hex digits decode to the byte with those high and low nibbles |
| Options.HashPassword | options/options.js:18-25 | the stored hash is twice as long as the digest |
| Options.VerifiesAfterSet | options/options.js:60-75 | Verifies, `enteredHash === passwordHash`: once p's hash is stored, a password q verifies iff digest(q) equals digest(p) |
| Options.NothingVerifiesWithoutHash | options/options.js:70-76 | with no hash stored, no password verifies |
| Options.TrimEach | options/options.js:138 | each part is trimmed, order and count kept |
| Options.DropEmpty | options/options.js:138 | filter(Boolean) never lengthens the list; one empty part gives nothing and one non-empty part is kept |
| Options.DropEmptyMembers | options/options.js:138 | only non-empty parts remain, and every non-empty part remains |
| Options.DropEmptyConcat | options/options.js:138 | the filter works part by part, so the kept parts stay in order and keep their repetitions |
| Options.Pieces | options/options.js:137-138 | the pieces to add are non-empty, trimmed and comma-free |
| Options.PiecesAreTrimmedParts | options/options.js:138 | the comma test is only a shortcut: the pieces are always the non-empty trimmed comma parts of the trimmed input |
| Options.AppendNewStep | options/options.js:139 | one more piece is pushed iff it is not yet in the list |
| Options.AppendNewSpec | options/options.js:139 | AppendNew, the forEach push: adding keeps the old entries in place; the result holds exactly the old entries and the pieces; the appended part has no duplicates and nothing already present |
| Options.AppendNewIsFreshPieces | options/options.js:138-139 | adding appends exactly the fresh pieces in input order: each piece not in the list and not equal to an earlier piece |
| Options.AppendNewKeepsNoDuplicates | options/options.js:139 | a duplicate-free list stays duplicate-free, even if the input repeats a piece |
| Options.IndexOf | options/options.js:148 | indexOf is -1 iff the item is absent, and otherwise the first position of the item |
| Options.RemoveFirstOccurrence | options/options.js:148-149 | splicing at indexOf removes exactly one copy of the item |
| Options.ItemList.constructor | options/options.js:104-116 | one of the three list settings (blocked domains, blocked keywords, allowed sites) is loaded: the list is the stored one, or empty when none is stored |
| Options.ItemList.AddItem | options/options.js:136-144 | the new list is the old one with the fresh pieces appended in input order; addedCount is the number of fresh pieces; the list is saved only when something was added |
| Options.ItemList.RemoveItem | options/options.js:147-155 | the first occurrence is removed and the list saved; an absent item changes nothing |
| Options.AuthView | options/options.js:34-41 | the login form iff a non-empty hash is stored, otherwise the set-password form |
| Options.OptionsPage.constructor | options/options.js:34-41 | the page opens on the view that the stored hash selects |
| Options.OptionsPage.SetPassword | options/options.js:57-65 | succeeds iff both fields are non-empty and equal, then stores hash(new) and shows the settings; otherwise the error text and no change |
| Options.OptionsPage.Unlock | options/options.js:67-77 | succeeds iff the password is non-empty and its hash is the stored one; never writes |
| Options.OptionsPage.ConfirmSave | options/options.js:203-210 | saves the message iff the password is non-empty and verifies; otherwise the error text and no write |
| Options.OptionsPage.ChangePassword | options/options.js:214-225 | the stored hash becomes hash(new) iff the current password verifies and the new fields are equal and non-empty; every other case has its error text and changes nothing |
| Options.OptionsPage.RemovePassword | options/options.js:226-234 | the hash is removed iff the current password verifies and the user confirms; the reloaded page then offers to set a password |
| Options.OptionsPage.ResetAllSettings | options/options.js:43-54 | storage is cleared iff the prompt returns exactly RESET; otherwise "Reset cancelled." and no change |
| Popup.Without | popup/popup.js:59-62 | filtering removes the host and keeps exactly the other entries |
| Popup.WithoutConcat | popup/popup.js:59-62 | filtering works element by element, so the kept entries stay in order |
| Popup.WithoutAbsent | popup/popup.js:59-62 | a list without the host is unchanged by the filter |
| Popup.WithoutMultiset | popup/popup.js:59-62 | filtering removes every copy of the host and nothing else |
| Popup.CurrentHostname | popup/popup.js:28-42 | a current host exists only for a tab URL that is not an about: page and parses; for a non-empty, non-about: URL that parses, the current host is the parsed hostname, even when that is empty |
| Popup.PopupPage.constructor | popup/popup.js:12-43 | settings are read with the popup's defaults; with a current host the buttons show list membership; when there is no usable tab URL or it does not parse, the catch disables both buttons; a URL that parses to an empty hostname (file:, data:) leaves both buttons as the page markup has them |
| Popup.PopupPage.UpdateButtonStates | popup/popup.js:45-53 | a button is disabled iff the host is in its list, by exact membership; no host changes nothing |
| Popup.PopupPage.ModifyLists | popup/popup.js:55-71 | blocking appends the host to blockedDomains and filters it out of allowedSites (allowing is the mirror); the host ends in exactly the chosen list; another list name changes no list; other settings are unchanged; the whole settings object is written back |
| Popup.PopupPage.SetPower | popup/popup.js:73-77 | blocking is on afterwards iff the toggle is checked; only isBlockingEnabled changes, in the settings and in storage |
| Popup.ClickLeavesHostInOneList | popup/popup.js:50-62 | a host not yet in the chosen list occurs there exactly once after the click, and not at all in the other list |
| Popup.DefaultsOnEmptyStorage | popup/popup.js:13-19 | empty storage reads as the defaults: empty lists, blocking on, theme light, and usageStats with blocksToday 0 |
| Popup.PowerOffAllowsEverything | popup/popup.js:73-77 | after the toggle is switched off, no request is redirected and no page is scanned |
| Popup.BlockedHostUnderAllowedDomainStaysAllowed | popup/popup.js:47-59 | blocking www.example.com from the popup while example.com is allowed leaves it allowed, because the popup tests exact membership but the decision uses suffix matching |

## Left out

- The user interface is not modelled. This covers:
  - element lookups and rendering (renderList, container visibility);
  - status and error text shown through the DOM;
  - timers and the theme class;
  - the block page, which only displays the stored message and the reason.
- Handlers return their error text in `Feedback` instead of writing it to the page.
- Storage I/O is synchronous map updates on a shared `Store`, so storage failures are not modelled. These are the popup's `alert` on a failed set and the options page's asynchronous reads.
  - Interleavings between pages are not modelled either. For example, the popup writes back a settings snapshot that may be stale.
- SHA-256 is not computed. `crypto.subtle.digest` over the UTF-8 bytes of the password is an uninterpreted function `digest`. Only the hex encoding of its bytes is concrete, and no cryptographic property is assumed.
- Export and import of settings are JSON, Blob and FileReader file I/O, and are not part of this model.
- URL parsing is not modelled. `new URL(...).hostname` is a parameter (the `domain` argument, or `parsedHost`, which is None when parsing throws). `encodeURIComponent` is not modelled: reasons are kept unencoded.
- Browser plumbing is not modelled:
  - `MutationObserver` re-scans: the model covers one run of the scan over one body text;
  - `window.stop`, `runtime.sendMessage` and `tabs.update` (the latter two become returned values);
  - `prompt` and `confirm`, which become parameters;
  - page reloads, which are modelled as recomputing the initial view.
- Text.Lower: folds only ASCII letters. JavaScript's `toLowerCase` also folds other Unicode letters, and keywords or pages outside ASCII may match differently.
- Loading the block-page message into its text field (options/options.js:113) and the theme are not modelled. The theme is read at options/options.js:118-121 and popup/popup.js:21. The toggle at options/options.js:197 saves it to storage, but the saved theme only changes how the pages look.
- The popup's blocks-today figure (popup/popup.js:26) is display only and is not modelled. `DefaultsOnEmptyStorage` states that empty storage reads `usageStats` with a count of 0.
- The storage key of a list is computed in the source as `ulElement.id.replace('List', '')`. In the model it is the `key` field of `ItemList`.
- Popup.PopupPage.constructor: requires well-typed storage, so wrong-typed lists are not modelled. A string `blockedDomains` or `allowedSites` would make `includes` a substring test. Most other non-list values make `includes` throw, after which the catch shows "N/A" and disables both buttons.
- Values of the wrong kind in storage read as absent in the typed getters. The extension itself writes only well-typed values; imported files are not checked by the source and are not modelled.
