/**
 `addresses_for_key`: the email addresses recorded in the user ids of every
 key in the GnuPG key ring that shares a given key's fingerprint. The key ring
 (`gpg.list_keys()`) is an input sequence, in the order GnuPG lists it.
 */
module Keys {
  import opened PyStr

  /** One entry of `gpg.list_keys()`: its fingerprint and its user-id strings. */
  datatype Key = Key(fingerprint: string, uids: seq<string>)

  /** An address as the extraction leaves it: no `<`, no `>` at either end. */
  predicate IsBareAddress(a: string)
  {
    '<' !in a && (a == [] || (a[0] != '>' && a[|a| - 1] != '>'))
  }

  /** The address in a user id: the text after its last `<`, with `>` stripped from both ends. */
  function ExtractAddress(uid: string): (a: string)
    ensures IsBareAddress(a)
    ensures |a| <= |uid|
  {
    AfterLastIsSuffix(uid, '<');
    StripIsSlice(AfterLast(uid, '<'), '>');
    Strip(AfterLast(uid, '<'), '>')
  }

  /** A user id of the form `name<address>` yields `address`, whatever `name` holds. */
  lemma ExtractFromBrackets(name: string, address: string)
    requires IsBareAddress(address)
    ensures ExtractAddress(name + "<" + address + ">") == address
  {
    assert name + "<" + address + ">" == name + ['<'] + (address + ">");
    AfterLastOf(name, '<', address + ">");
    assert Rep('>', 0) + address + Rep('>', 1) == address + ">";
    StripOf('>', 0, address, 1);
  }

  /** A user id without `<` yields itself with its leading and trailing `>` removed. */
  lemma ExtractWithoutBracket(uid: string)
    requires '<' !in uid
    ensures ExtractAddress(uid) == Strip(uid, '>')
  {
  }

  /** The non-empty strings of `uids`, in order: the `if address` filter. */
  function NonEmpty(uids: seq<string>): (r: seq<string>)
    ensures forall u :: u in r <==> u in uids && u != []
    ensures |r| <= |uids|
    ensures |r| == |uids| <==> forall i :: 0 <= i < |uids| ==> uids[i] != []
  {
    if uids == [] then []
    else if uids[0] == [] then NonEmpty(uids[1..])
    else [uids[0]] + NonEmpty(uids[1..])
  }

  /** The filter applies to each half of a list on its own, so it keeps the order. */
  lemma {:induction false} NonEmptyAppend(a: seq<string>, b: seq<string>)
    ensures NonEmpty(a + b) == NonEmpty(a) + NonEmpty(b)
  {
    if a != [] {
      assert (a + b)[1..] == a[1..] + b;
      NonEmptyAppend(a[1..], b);
    } else {
      assert a + b == b;
    }
  }

  /** The addresses of one key: one per non-empty user id, in order. */
  function AddressesOf(uids: seq<string>): (addrs: seq<string>)
    ensures |addrs| == |NonEmpty(uids)| <= |uids|
    ensures forall i :: 0 <= i < |addrs| ==> addrs[i] == ExtractAddress(NonEmpty(uids)[i])
    ensures forall i :: 0 <= i < |addrs| ==> IsBareAddress(addrs[i])
  {
    var kept := NonEmpty(uids);
    seq(|kept|, i requires 0 <= i < |kept| => ExtractAddress(kept[i]))
  }

  /**
   The loop of `addresses_for_key`: for each listed key whose fingerprint equals
   `fingerprint`, in list order, the addresses of its non-empty user ids.
   */
  function Collect(ring: seq<Key>, fingerprint: string): (addrs: seq<string>)
    ensures forall i :: 0 <= i < |addrs| ==> IsBareAddress(addrs[i])
  {
    if ring == [] then []
    else
      (if ring[0].fingerprint == fingerprint then AddressesOf(ring[0].uids) else [])
      + Collect(ring[1..], fingerprint)
  }

  /** `addresses_for_key(gpg, key)` with `gpg.list_keys()` given as `ring`. */
  function AddressesForKey(ring: seq<Key>, key: Key): (addrs: seq<string>)
    ensures forall i :: 0 <= i < |addrs| ==> IsBareAddress(addrs[i])
  {
    Collect(ring, key.fingerprint)
  }

  /** A key ring split in two contributes its halves' addresses in the same order. */
  lemma {:induction false} CollectAppend(a: seq<Key>, b: seq<Key>, fingerprint: string)
    ensures Collect(a + b, fingerprint) == Collect(a, fingerprint) + Collect(b, fingerprint)
  {
    if a != [] {
      assert (a + b)[1..] == a[1..] + b;
      CollectAppend(a[1..], b, fingerprint);
    } else {
      assert a + b == b;
    }
  }

  /**
   The result is empty exactly when every listed key with the fingerprint has
   only empty user ids; in particular when no listed key has the fingerprint.
   */
  lemma {:induction false} NoAddressesIff(ring: seq<Key>, key: Key)
    ensures AddressesForKey(ring, key) == [] <==>
      forall k, u :: k in ring && k.fingerprint == key.fingerprint && u in k.uids ==> u == []
  {
    CollectEmptyIff(ring, key.fingerprint);
  }

  /** `NoAddressesIff` for the loop over the key ring. */
  lemma {:induction false} CollectEmptyIff(ring: seq<Key>, fingerprint: string)
    ensures Collect(ring, fingerprint) == [] <==>
      forall k, u :: k in ring && k.fingerprint == fingerprint && u in k.uids ==> u == []
  {
    if ring != [] {
      CollectEmptyIff(ring[1..], fingerprint);
      var k0 := ring[0];
      if k0.fingerprint == fingerprint {
        var kept := NonEmpty(k0.uids);
        assert |AddressesOf(k0.uids)| == |kept|;
        assert kept == [] <==> forall u :: u in k0.uids ==> u == [] by {
          if kept != [] {
            assert kept[0] in kept;
          }
        }
      }
      forall k | k in ring
        ensures k == ring[0] || k in ring[1..]
      {
      }
    }
  }

  /** No listed key with the fingerprint: no addresses. */
  lemma NoMatchingKey(ring: seq<Key>, key: Key)
    requires forall k :: k in ring ==> k.fingerprint != key.fingerprint
    ensures AddressesForKey(ring, key) == []
  {
    NoAddressesIff(ring, key);
  }

  /**
   Count: one address per non-empty user id of each listed key with the
   fingerprint (order follows from `CollectAppend` and `CollectOne`).
   */
  lemma {:induction false} CollectCount(ring: seq<Key>, fingerprint: string)
    ensures |Collect(ring, fingerprint)| == UidTotal(ring, fingerprint)
  {
    if ring != [] {
      CollectCount(ring[1..], fingerprint);
    }
  }

  /** Number of non-empty user ids over the keys with the fingerprint. */
  function UidTotal(ring: seq<Key>, fingerprint: string): (n: nat)
  {
    if ring == [] then 0
    else
      (if ring[0].fingerprint == fingerprint then |NonEmpty(ring[0].uids)| else 0)
      + UidTotal(ring[1..], fingerprint)
  }

  /** With no empty user id, the filter keeps every user id. */
  lemma {:induction false} NonEmptyKeepsAll(uids: seq<string>)
    requires forall i :: 0 <= i < |uids| ==> uids[i] != []
    ensures NonEmpty(uids) == uids
  {
    if uids != [] {
      NonEmptyKeepsAll(uids[1..]);
    }
  }

  /** A key ring of one key contributes that key's addresses when the fingerprint matches. */
  lemma CollectOne(k: Key, fingerprint: string)
    ensures Collect([k], fingerprint) == if k.fingerprint == fingerprint then AddressesOf(k.uids) else []
  {
    assert [k][1..] == [];
  }

  /** Two non-empty user ids give their two addresses, in order. */
  lemma AddressesOfTwo(u1: string, u2: string)
    requires u1 != [] && u2 != []
    ensures AddressesOf([u1, u2]) == [ExtractAddress(u1), ExtractAddress(u2)]
  {
    NonEmptyKeepsAll([u1, u2]);
  }

  /** A single matching key with two non-empty user ids yields their two addresses in order. */
  lemma OneKeyTwoUids(f: string, u1: string, u2: string)
    requires u1 != [] && u2 != []
    ensures AddressesForKey([Key(f, [u1, u2])], Key(f, [])) == [ExtractAddress(u1), ExtractAddress(u2)]
  {
    CollectOne(Key(f, [u1, u2]), f);
    AddressesOfTwo(u1, u2);
  }

  /** A display name before the bracketed address is dropped. */
  lemma ExtractNamed()
    ensures ExtractAddress("Name <a@x.com>") == "a@x.com"
  {
    assert "Name <a@x.com>" == "Name " + "<" + "a@x.com" + ">";
    ExtractFromBrackets("Name ", "a@x.com");
  }

  /** A user id that is only a bracketed address yields that address. */
  lemma ExtractBare()
    ensures ExtractAddress("<b@x.com>") == "b@x.com"
  {
    assert "<b@x.com>" == "" + "<" + "b@x.com" + ">";
    ExtractFromBrackets("", "b@x.com");
  }

  /** The worked example: one key with user ids `Name <a@x.com>` and `<b@x.com>`. */
  lemma TwoUidExample(f: string)
    ensures AddressesForKey([Key(f, ["Name <a@x.com>", "<b@x.com>"])], Key(f, []))
      == ["a@x.com", "b@x.com"]
  {
    OneKeyTwoUids(f, "Name <a@x.com>", "<b@x.com>");
    ExtractNamed();
    ExtractBare();
  }
}
