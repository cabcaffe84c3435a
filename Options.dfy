/**
 * The options page: the hex encoding of the password digest, the editing of
 * the three lists (add and remove), and the password gate that guards the
 * settings (set, unlock, confirm-save, change, remove, and the full reset).
 */
module Options {
  import opened Wrappers
  import opened Text
  import opened Storage

  newtype byte = x: int | 0 <= x < 256

  // ---------------------------------------------------------------------
  // Digest encoding: `hashArray.map(b => b.toString(16).padStart(2, '0')).join('')`
  // ---------------------------------------------------------------------

  function HexDigit(d: int): (c: char)
    requires 0 <= d < 16
  {
    if d < 10 then ('0' as int + d) as char else ('a' as int + d - 10) as char
  }

  /** The value of a lowercase hexadecimal digit. */
  function DigitValue(c: char): (r: Option<int>)
    ensures r.Some? ==> 0 <= r.value < 16 && HexDigit(r.value) == c
  {
    if '0' <= c <= '9' then Some(c as int - '0' as int)
    else if 'a' <= c <= 'f' then Some(c as int - 'a' as int + 10)
    else None
  }

  /** Number.prototype.toString(16) for a byte: one digit below 16, two from
      16 on, no leading zero. */
  function ToHexString(b: byte): (r: string)
    ensures |r| == if b < 16 then 1 else 2
    ensures r[|r| - 1] == HexDigit(b as int % 16)
    ensures |r| == 2 ==> r[0] == HexDigit(b as int / 16) && r[0] != '0'
  {
    if b < 16 then [HexDigit(b as int)] else [HexDigit(b as int / 16), HexDigit(b as int % 16)]
  }

  /** String.prototype.padStart(2, '0'). */
  function PadStart2(s: string): (r: string)
    ensures |s| >= 2 ==> r == s
    ensures |s| == 1 ==> r == ['0'] + s
    ensures |s| == 0 ==> r == "00"
  {
    if |s| >= 2 then s else seq(2 - |s|, _ => '0') + s
  }

  function ByteHex(b: byte): string {
    PadStart2(ToHexString(b))
  }

  /** Every byte becomes exactly two digits: high nibble, then low nibble. */
  lemma ByteHexIsTwoDigits(b: byte)
    ensures ByteHex(b) == [HexDigit(b as int / 16), HexDigit(b as int % 16)]
  {
  }

  /** The digest as lowercase hexadecimal text: two digits per byte. */
  function HexDigest(bytes: seq<byte>): (r: string)
    ensures |r| == 2 * |bytes|
    ensures forall i :: 0 <= i < |r| ==> DigitValue(r[i]).Some?
  {
    if bytes == [] then []
    else
      ByteHexIsTwoDigits(bytes[0]);
      ByteHex(bytes[0]) + HexDigest(bytes[1..])
  }

  /** Reads hexadecimal text back into bytes, two digits per byte. */
  function DecodeHex(s: string): Option<seq<byte>>
  {
    if s == [] then Some([])
    else if |s| < 2 then None
    else
      var hi, lo := DigitValue(s[0]), DigitValue(s[1]);
      var rest := DecodeHex(s[2..]);
      if hi.None? || lo.None? || rest.None? then None
      else Some([(hi.value * 16 + lo.value) as byte] + rest.value)
  }

  /** Each digit reads back as its value. */
  lemma DigitRoundTrip(d: int)
    requires 0 <= d < 16
    ensures DigitValue(HexDigit(d)) == Some(d)
  {
    if d < 10 {
      assert HexDigit(d) as int == '0' as int + d;
    } else {
      assert HexDigit(d) as int == 'a' as int + d - 10;
    }
  }

  /** Two digits decode to the byte they encode, in front of the rest. */
  lemma DecodeTwoDigits(hi: int, lo: int, rest: string)
    requires 0 <= hi < 16 && 0 <= lo < 16
    ensures DecodeHex([HexDigit(hi), HexDigit(lo)] + rest) ==
      if DecodeHex(rest).Some? then Some([(hi * 16 + lo) as byte] + DecodeHex(rest).value) else None
  {
    DigitRoundTrip(hi);
    DigitRoundTrip(lo);
    var s := [HexDigit(hi), HexDigit(lo)] + rest;
    assert s[0] == HexDigit(hi) && s[1] == HexDigit(lo) && s[2..] == rest;
  }

  lemma DecodeByteHex(b: byte, rest: string)
    ensures DecodeHex(ByteHex(b) + rest) ==
      if DecodeHex(rest).Some? then Some([b] + DecodeHex(rest).value) else None
  {
    ByteHexIsTwoDigits(b);
    DecodeTwoDigits(b as int / 16, b as int % 16, rest);
  }

  /** Decoding undoes the encoding. */
  lemma {:induction false} DecodeHexDigest(bytes: seq<byte>)
    ensures DecodeHex(HexDigest(bytes)) == Some(bytes)
  {
    if bytes == [] {
    } else {
      DecodeHexDigest(bytes[1..]);
      DecodeByteHex(bytes[0], HexDigest(bytes[1..]));
      assert [bytes[0]] + bytes[1..] == bytes;
    }
  }

  /** The encoding is injective: different digests give different texts. */
  lemma HexDigestInjective(a: seq<byte>, b: seq<byte>)
    requires HexDigest(a) == HexDigest(b)
    ensures a == b
  {
    DecodeHexDigest(a);
    DecodeHexDigest(b);
  }

  /** hashPassword: the hex text of the SHA-256 digest of the password's
      UTF-8 bytes. The digest itself is the parameter `digest`. */
  function HashPassword(digest: string -> seq<byte>, password: string): (h: string)
    ensures |h| == 2 * |digest(password)|
  {
    HexDigest(digest(password))
  }

  /** `enteredHash === passwordHash`: the stored hash is present and equals
      the hash of the entered password. */
  predicate Verifies(stored: Area, digest: string -> seq<byte>, entered: string) {
    PasswordHash in stored && stored[PasswordHash] == Str(HashPassword(digest, entered))
  }

  /** Once the hash of p is stored, a password verifies exactly when its
      digest equals p's: the hex text loses nothing. */
  lemma VerifiesAfterSet(stored: Area, digest: string -> seq<byte>, p: string, q: string)
    ensures Verifies(stored[PasswordHash := Str(HashPassword(digest, p))], digest, q)
      <==> digest(q) == digest(p)
  {
    if HexDigest(digest(q)) == HexDigest(digest(p)) {
      HexDigestInjective(digest(q), digest(p));
    }
  }

  /** With no hash stored, no password verifies. */
  lemma NothingVerifiesWithoutHash(stored: Area, digest: string -> seq<byte>, entered: string)
    requires PasswordHash !in stored
    ensures !Verifies(stored, digest, entered)
  {
  }

  // ---------------------------------------------------------------------
  // List editing: addItem and removeItem
  // ---------------------------------------------------------------------

  /** `.map(s => s.trim())` */
  function TrimEach(parts: seq<string>): (r: seq<string>)
    ensures |r| == |parts|
    ensures forall i :: 0 <= i < |r| ==> r[i] == Trim(parts[i])
  {
    seq(|parts|, i requires 0 <= i < |parts| => Trim(parts[i]))
  }

  /** `.filter(Boolean)` on strings: drops the empty ones, keeping the order.
      With DropEmptyConcat, the one-element cases fix the result. */
  function DropEmpty(parts: seq<string>): (r: seq<string>)
    ensures |r| <= |parts|
    ensures |parts| == 1 && parts[0] == [] ==> r == []
    ensures |parts| == 1 && parts[0] != [] ==> r == parts
  {
    if parts == [] then []
    else (if parts[0] == [] then [] else [parts[0]]) + DropEmpty(parts[1..])
  }

  /** The filter keeps exactly the non-empty parts. */
  lemma {:induction false} DropEmptyMembers(parts: seq<string>)
    ensures forall i :: 0 <= i < |DropEmpty(parts)| ==> DropEmpty(parts)[i] != [] && DropEmpty(parts)[i] in parts
    ensures forall p :: p in parts && p != [] ==> p in DropEmpty(parts)
  {
    if parts != [] {
      DropEmptyMembers(parts[1..]);
      assert parts == [parts[0]] + parts[1..];
    }
  }

  /** The filter works part by part: the kept parts of a + b are the kept
      parts of a followed by those of b, in order and with repetitions. */
  lemma {:induction false} DropEmptyConcat(a: seq<string>, b: seq<string>)
    ensures DropEmpty(a + b) == DropEmpty(a) + DropEmpty(b)
    decreases |a|
  {
    if a != [] {
      var ab := a + b;
      assert ab[0] == a[0];
      assert ab[1..] == a[1..] + b;
      DropEmptyConcat(a[1..], b);
      if a[0] == [] {
        assert DropEmpty(ab) == DropEmpty(ab[1..]);
        assert DropEmpty(a) == DropEmpty(a[1..]);
      } else {
        assert DropEmpty(ab) == [a[0]] + DropEmpty(ab[1..]);
        assert DropEmpty(a) == [a[0]] + DropEmpty(a[1..]);
        PartsAssoc([a[0]], DropEmpty(a[1..]), DropEmpty(b));
      }
    } else {
      assert a + b == b;
    }
  }

  lemma PartsAssoc(x: seq<string>, y: seq<string>, z: seq<string>)
    ensures x + (y + z) == x + y + z
  {
  }

  /** The pieces addItem adds, in input order: the trimmed input if it has no
      comma, otherwise its comma-separated parts, trimmed, without the empty
      ones. None is empty, none has whitespace at either end, none has a comma. */
  function Pieces(input: string): (r: seq<string>)
    ensures forall i :: 0 <= i < |r| ==> r[i] != [] && Trim(r[i]) == r[i] && ',' !in r[i]
  {
    var raw := Trim(input);
    if raw == [] then []
    else if ',' in raw then
      var parts := Split(raw, ',');
      var trimmed := TrimEach(parts);
      forall i | 0 <= i < |trimmed|
        ensures Trim(trimmed[i]) == trimmed[i] && ',' !in trimmed[i]
      {
        TrimIdempotent(parts[i]);
        TrimKeepsOnlyCharsOf(parts[i], ',');
      }
      DropEmptyMembers(trimmed);
      DropEmpty(trimmed)
    else
      TrimIdempotent(input);
      [raw]
  }

  /** The comma test is only a shortcut: the pieces are always the non-empty
      trimmed comma-separated parts of the trimmed input. */
  lemma PiecesAreTrimmedParts(input: string)
    ensures Pieces(input) == if Trim(input) == [] then [] else DropEmpty(TrimEach(Split(Trim(input), ',')))
  {
    var raw := Trim(input);
    if raw != [] && ',' !in raw {
      NoSeparatorSplit(raw, ',');
      TrimIdempotent(input);
      assert TrimEach([raw]) == [raw];
      assert DropEmpty([raw]) == [raw] + DropEmpty([]);
    }
  }

  /** The list after the pieces are pushed one after the other, each only if
      it is not in the list yet (including pieces pushed before it). */
  function AppendNew(items: seq<string>, pieces: seq<string>): seq<string>
    decreases |pieces|
  {
    if pieces == [] then items
    else
      var acc := AppendNew(items, pieces[..|pieces| - 1]);
      var p := pieces[|pieces| - 1];
      if p in acc then acc else acc + [p]
  }

  /** One more piece: pushed unless already present. */
  lemma AppendNewStep(items: seq<string>, pieces: seq<string>, i: nat)
    requires i < |pieces|
    ensures AppendNew(items, pieces[..i + 1]) ==
      var acc := AppendNew(items, pieces[..i]);
      if pieces[i] in acc then acc else acc + [pieces[i]]
  {
    assert pieces[..i + 1][..i] == pieces[..i];
  }

  predicate NoDuplicates(s: seq<string>) {
    forall i, j :: 0 <= i < j < |s| ==> s[i] != s[j]
  }

  /** Adding keeps the old entries in place, contains exactly the old entries
      and the pieces, and appends no entry twice nor an entry already there. */
  lemma {:induction false} AppendNewSpec(items: seq<string>, pieces: seq<string>)
    ensures |AppendNew(items, pieces)| >= |items|
    ensures AppendNew(items, pieces)[..|items|] == items
    ensures forall x :: x in AppendNew(items, pieces) <==> x in items || x in pieces
    ensures NoDuplicates(AppendNew(items, pieces)[|items|..])
    ensures forall x :: x in AppendNew(items, pieces)[|items|..] ==> x !in items
    decreases |pieces|
  {
    if pieces != [] {
      var init := pieces[..|pieces| - 1];
      var p := pieces[|pieces| - 1];
      AppendNewSpec(items, init);
      var acc := AppendNew(items, init);
      assert pieces == init + [p];
      if p !in acc {
        var r := acc + [p];
        assert r[..|items|] == acc[..|items|];
        assert r[|items|..] == acc[|items|..] + [p];
      }
    }
  }

  /** The pieces addItem pushes, in input order: each piece that is not in
      the list and not equal to an earlier piece. */
  function FreshPieces(items: seq<string>, pieces: seq<string>): seq<string>
    decreases |pieces|
  {
    if pieces == [] then []
    else
      var init := pieces[..|pieces| - 1];
      var p := pieces[|pieces| - 1];
      FreshPieces(items, init) + (if p in items || p in init then [] else [p])
  }

  /** Adding appends exactly the fresh pieces, in input order. */
  lemma {:induction false} AppendNewIsFreshPieces(items: seq<string>, pieces: seq<string>)
    ensures AppendNew(items, pieces) == items + FreshPieces(items, pieces)
    decreases |pieces|
  {
    if pieces != [] {
      var init := pieces[..|pieces| - 1];
      var p := pieces[|pieces| - 1];
      AppendNewIsFreshPieces(items, init);
      AppendNewSpec(items, init);
      assert (p in AppendNew(items, init)) == (p in items || p in init);
      assert items + (FreshPieces(items, init) + [p]) == items + FreshPieces(items, init) + [p];
    }
  }

  /** A duplicate-free list stays duplicate-free, even when the input repeats
      a piece. */
  lemma AppendNewKeepsNoDuplicates(items: seq<string>, pieces: seq<string>)
    requires NoDuplicates(items)
    ensures NoDuplicates(AppendNew(items, pieces))
  {
    AppendNewSpec(items, pieces);
    var r := AppendNew(items, pieces);
    var n := |items|;
    forall i, j | 0 <= i < j < |r|
      ensures r[i] != r[j]
    {
      if j < n {
        assert r[i] == items[i] && r[j] == items[j];
      } else if i < n {
        assert r[j] == r[n..][j - n];
        assert r[i] == items[i];
      } else {
        assert r[i] == r[n..][i - n] && r[j] == r[n..][j - n];
      }
    }
  }

  /** `itemsArray.indexOf(x)`: the first position of x, or -1. */
  function IndexOf(s: seq<string>, x: string): (r: int)
    ensures -1 <= r < |s|
    ensures r == -1 <==> x !in s
    ensures r >= 0 ==> s[r] == x && x !in s[..r]
  {
    if s == [] then -1
    else if s[0] == x then 0
    else
      var r := IndexOf(s[1..], x);
      if r == -1 then -1
      else
        assert s[..r + 1] == [s[0]] + s[1..][..r];
        r + 1
  }

  /** Removing the first occurrence takes exactly one copy of x out. */
  lemma RemoveFirstOccurrence(s: seq<string>, x: string)
    requires x in s
    ensures var i := IndexOf(s, x);
      && |s[..i] + s[i + 1..]| == |s| - 1
      && multiset(s[..i] + s[i + 1..]) == multiset(s) - multiset{x}
  {
    var i := IndexOf(s, x);
    var before, after := s[..i], s[i + 1..];
    assert s == before + [x] + after;
    assert multiset(s) == multiset(before) + multiset{x} + multiset(after);
    assert multiset(before + after) == multiset(before) + multiset(after);
  }

  /** One of the three editable lists of the options page, with the setting it
      is saved under. */
  class ItemList {
    const key: Key
    var items: seq<string>

    /** loadSettings: `data[key] || []`, for one of the three list settings. */
    constructor (key: Key, stored: Area)
      requires key == BlockedDomains || key == BlockedKeywords || key == AllowedSites
      ensures this.key == key
      ensures items == if ListAt(stored, key).Some? then ListAt(stored, key).value else []
    {
      this.key := key;
      items := if ListAt(stored, key).Some? then ListAt(stored, key).value else [];
    }

    /** addItem: pushes each new piece of the input and, when anything was
        added, saves the list. Returns addedCount. */
    method AddItem(input: string, store: Store) returns (addedCount: nat)
      modifies this, store
      ensures items == AppendNew(old(items), Pieces(input))
      ensures items == old(items) + FreshPieces(old(items), Pieces(input))
      ensures addedCount == |items| - |old(items)| == |FreshPieces(old(items), Pieces(input))|
      ensures store.data == if addedCount > 0 then old(store.data)[key := List(items)] else old(store.data)
    {
      var toAdd := Pieces(input);
      var original := items;
      var list := original;
      addedCount := 0;
      for i := 0 to |toAdd|
        modifies {}
        invariant list == AppendNew(original, toAdd[..i])
        invariant addedCount == |list| - |original|
      {
        AppendNewStep(original, toAdd, i);
        if toAdd[i] !in list {
          list := list + [toAdd[i]];
          addedCount := addedCount + 1;
        }
      }
      assert toAdd[..|toAdd|] == toAdd;
      AppendNewIsFreshPieces(original, toAdd);
      items := list;
      if addedCount > 0 {
        store.data := store.data[key := List(list)];
      }
    }

    /** removeItem: splices out the first occurrence and saves the list; an
        absent item changes nothing. */
    method RemoveItem(item: string, store: Store)
      modifies this, store
      ensures item !in old(items) ==> items == old(items) && store.data == old(store.data)
      ensures item in old(items) ==>
        var i := IndexOf(old(items), item);
        items == old(items)[..i] + old(items)[i + 1..] && store.data == old(store.data)[key := List(items)]
    {
      var index := IndexOf(items, item);
      if index > -1 {
        items := items[..index] + items[index + 1..];
        store.data := store.data[key := List(items)];
      }
    }
  }

  // ---------------------------------------------------------------------
  // The password gate
  // ---------------------------------------------------------------------

  /** Which part of the options page is shown. */
  datatype View = SetPasswordForm | LoginForm | SettingsPanel

  /** What a handler reports: done, refused with the error text it shows, or
      cancelled by the user in a confirmation dialog. */
  datatype Feedback = Done | Refused(message: string) | Cancelled

  /** initializeAuth: the login form when a (non-empty) hash is stored,
      otherwise the form that sets a first password. */
  function AuthView(stored: Area): (v: View)
    ensures v == LoginForm <==> StrAt(stored, PasswordHash).Some? && StrAt(stored, PasswordHash).value != []
    ensures v != SettingsPanel
  {
    if StrAt(stored, PasswordHash).Some? && StrAt(stored, PasswordHash).value != [] then LoginForm
    else SetPasswordForm
  }

  /** The options page over the shared storage. `digest` is SHA-256 of the
      UTF-8 bytes of a password (crypto.subtle.digest), left uninterpreted. */
  class OptionsPage {
    const store: Store
    const digest: string -> seq<byte>
    var view: View

    constructor (store: Store, digest: string -> seq<byte>)
      ensures this.store == store && this.digest == digest
      ensures view == AuthView(store.data)
    {
      this.store := store;
      this.digest := digest;
      view := AuthView(store.data);
    }

    /** The set-password button: both fields are required and must agree;
        then the hash is stored and the settings are shown. */
    method SetPassword(newPassword: string, confirmPassword: string) returns (f: Feedback)
      requires view == SetPasswordForm
      modifies this, store
      ensures f == Done <==> newPassword != [] && newPassword == confirmPassword
      ensures (newPassword == [] || confirmPassword == []) ==> f == Refused("Both fields are required.")
      ensures newPassword != [] && confirmPassword != [] && newPassword != confirmPassword ==>
        f == Refused("Passwords do not match.")
      ensures f == Done ==>
        store.data == old(store.data)[PasswordHash := Str(HashPassword(digest, newPassword))]
        && view == SettingsPanel
      ensures f != Done ==> store.data == old(store.data) && view == old(view)
    {
      if newPassword == [] || confirmPassword == [] {
        return Refused("Both fields are required.");
      }
      if newPassword != confirmPassword {
        return Refused("Passwords do not match.");
      }
      store.data := store.data[PasswordHash := Str(HashPassword(digest, newPassword))];
      view := SettingsPanel;
      return Done;
    }

    /** The unlock button: succeeds exactly for a non-empty password whose
        hash is the stored one; it never writes. */
    method Unlock(entered: string) returns (f: Feedback)
      requires view == LoginForm
      modifies this
      ensures f == Done <==> entered != [] && Verifies(store.data, digest, entered)
      ensures entered == [] ==> f == Refused("Password is required.")
      ensures entered != [] && f != Done ==> f == Refused("Incorrect password.")
      ensures view == if f == Done then SettingsPanel else old(view)
    {
      if entered == [] {
        return Refused("Password is required.");
      }
      if PasswordHash in store.data && store.data[PasswordHash] == Str(HashPassword(digest, entered)) {
        view := SettingsPanel;
        return Done;
      }
      return Refused("Incorrect password.");
    }

    /** The confirm-save button: saves the block page message only for a
        non-empty password whose hash is the stored one. */
    method ConfirmSave(entered: string, message: string) returns (f: Feedback)
      requires view == SettingsPanel
      modifies store
      ensures f == Done <==> entered != [] && Verifies(old(store.data), digest, entered)
      ensures entered == [] ==> f == Refused("Password is required to confirm.")
      ensures entered != [] && f != Done ==> f == Refused("Incorrect password. Please try again.")
      ensures store.data ==
        if f == Done then old(store.data)[BlockPageMessage := Str(message)] else old(store.data)
    {
      if entered == [] {
        return Refused("Password is required to confirm.");
      }
      if PasswordHash in store.data && store.data[PasswordHash] == Str(HashPassword(digest, entered)) {
        store.data := store.data[BlockPageMessage := Str(message)];
        return Done;
      }
      return Refused("Incorrect password. Please try again.");
    }

    /** The change-password button: the current password must verify; two
        empty new fields or two different ones change nothing; otherwise the
        hash of the new password, which is then non-empty, is stored. */
    method ChangePassword(current: string, newPassword: string, confirmPassword: string) returns (f: Feedback)
      requires view == SettingsPanel
      modifies store
      ensures f == Done <==>
        current != [] && Verifies(old(store.data), digest, current)
        && newPassword == confirmPassword && newPassword != []
      ensures current == [] ==> f == Refused("Current password is required.")
      ensures current != [] && !Verifies(old(store.data), digest, current) ==>
        f == Refused("Incorrect current password.")
      ensures current != [] && Verifies(old(store.data), digest, current) ==>
        && (newPassword == [] && confirmPassword == [] ==> f == Refused("No changes to save."))
        && ((newPassword != [] || confirmPassword != []) && newPassword != confirmPassword ==>
              f == Refused("New passwords do not match."))
      ensures store.data ==
        if f == Done then old(store.data)[PasswordHash := Str(HashPassword(digest, newPassword))]
        else old(store.data)
    {
      if current == [] {
        return Refused("Current password is required.");
      }
      if !(PasswordHash in store.data && store.data[PasswordHash] == Str(HashPassword(digest, current))) {
        return Refused("Incorrect current password.");
      }
      if newPassword == [] && confirmPassword == [] {
        return Refused("No changes to save.");
      }
      if newPassword != confirmPassword {
        return Refused("New passwords do not match.");
      }
      store.data := store.data[PasswordHash := Str(HashPassword(digest, newPassword))];
      return Done;
    }

    /** The remove-password button: the current password must verify and the
        user must confirm; the hash is then removed and the reloaded page
        offers to set a first password. */
    method RemovePassword(current: string, confirmed: bool) returns (f: Feedback)
      requires view == SettingsPanel
      modifies this, store
      ensures f == Done <==> current != [] && Verifies(old(store.data), digest, current) && confirmed
      ensures current == [] ==> f == Refused("Current password is required to remove protection.")
      ensures current != [] && !Verifies(old(store.data), digest, current) ==>
        f == Refused("Incorrect current password.")
      ensures f == Done ==> store.data == old(store.data) - {PasswordHash} && view == SetPasswordForm
      ensures f != Done ==> store.data == old(store.data) && view == old(view)
    {
      if current == [] {
        return Refused("Current password is required to remove protection.");
      }
      if PasswordHash in store.data && store.data[PasswordHash] == Str(HashPassword(digest, current)) {
        if confirmed {
          store.data := store.data - {PasswordHash};
          view := AuthView(store.data);
          return Done;
        }
        return Cancelled;
      }
      return Refused("Incorrect current password.");
    }

    /** resetAllSettings: clears all storage, password included, only when the
        prompt returns exactly 'RESET' (None is a dismissed prompt); the
        reloaded page offers to set a first password. */
    method ResetAllSettings(confirmation: Option<string>) returns (f: Feedback)
      modifies this, store
      ensures f == Done <==> confirmation == Some("RESET")
      ensures f == Done ==> store.data == map[] && view == SetPasswordForm
      ensures f != Done ==> f == Refused("Reset cancelled.") && store.data == old(store.data) && view == old(view)
    {
      if confirmation == Some("RESET") {
        store.data := map[];
        view := AuthView(store.data);
        return Done;
      }
      return Refused("Reset cancelled.");
    }
  }
}
