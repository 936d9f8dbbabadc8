/** The country access list: countries (by code or by name) that are allowed or
    denied whatever the default, built at application start from two `|`-separated
    property strings, and the scan checkAddress makes over it. The HashMap is a
    sequence of entries with distinct keys, in the order the keys were first put. */
module CountryAccess {
  import opened Java

  /** One entry of the map: a country code or name, and true for "allowed". */
  type Entry = (string, bool)

  function Keys(entries: seq<Entry>): set<string>
  {
    set i | 0 <= i < |entries| :: entries[i].0
  }

  lemma KeysCons(e: Entry, rest: seq<Entry>)
    ensures Keys([e] + rest) == {e.0} + Keys(rest)
  {
    var s := [e] + rest;
    assert s[0].0 == e.0;
    forall x | x in Keys(s) ensures x in {e.0} + Keys(rest) {
      var i :| 0 <= i < |s| && s[i].0 == x;
      if i > 0 {
        assert rest[i - 1].0 == x;
      }
    }
    forall x | x in Keys(rest) ensures x in Keys(s) {
      var i :| 0 <= i < |rest| && rest[i].0 == x;
      assert s[i + 1].0 == x;
    }
  }

  /** No key occurs twice, as in a map. */
  predicate UniqueKeys(entries: seq<Entry>)
  {
    forall i, j :: 0 <= i < j < |entries| ==> entries[i].0 != entries[j].0
  }

  /** Map.get: the value stored under the key, if any. */
  function Get(entries: seq<Entry>, key: string): (r: Option<bool>)
    ensures r.None? <==> key !in Keys(entries)
  {
    if entries == [] then None
    else
      KeysCons(entries[0], entries[1..]);
      HeadTail(entries);
      if entries[0].0 == key then Some(entries[0].1)
      else Get(entries[1..], key)
  }

  /** Map.put: a key already present keeps its place and takes the new value; a new
      key is added. */
  function Put(entries: seq<Entry>, key: string, value: bool): (r: seq<Entry>)
    ensures Keys(r) == Keys(entries) + {key}
    ensures UniqueKeys(entries) ==> UniqueKeys(r)
  {
    if entries == [] then
      KeysCons((key, value), []);
      assert Keys([]) == {};
      [(key, value)]
    else
      KeysCons(entries[0], entries[1..]);
      HeadTail(entries);
      if entries[0].0 == key then
        KeysCons((key, value), entries[1..]);
        [(key, value)] + entries[1..]
      else
        var rest := Put(entries[1..], key, value);
        KeysCons(entries[0], rest);
        assert UniqueKeys(entries) ==> entries[0].0 !in Keys(entries[1..]);
        [entries[0]] + rest
  }

  /** After put(key, value), get(key) is value and every other key is unaffected. */
  lemma {:induction false} PutThenGet(entries: seq<Entry>, key: string, value: bool, k: string)
    ensures Get(Put(entries, key, value), k) == if k == key then Some(value) else Get(entries, k)
  {
    if entries != [] && entries[0].0 != key {
      PutThenGet(entries[1..], key, value, k);
    }
  }

  /** The two put loops of onAppStart: put every key in turn with one value. */
  function PutAll(entries: seq<Entry>, keys: seq<string>, value: bool): seq<Entry>
  {
    if keys == [] then entries
    else Put(PutAll(entries, keys[..|keys| - 1], value), keys[|keys| - 1], value)
  }

  lemma {:induction false} PutAllThenGet(entries: seq<Entry>, keys: seq<string>, value: bool, k: string)
    ensures Get(PutAll(entries, keys, value), k) == if k in keys then Some(value) else Get(entries, k)
  {
    if keys != [] {
      var init := keys[..|keys| - 1];
      var last := keys[|keys| - 1];
      var before := PutAll(entries, init, value);
      assert PutAll(entries, keys, value) == Put(before, last, value);
      PutAllThenGet(entries, init, value, k);
      PutThenGet(before, last, value, k);
      FrontLast(keys);
    }
  }

  lemma {:induction false} PutAllUnique(entries: seq<Entry>, keys: seq<string>, value: bool)
    requires UniqueKeys(entries)
    ensures UniqueKeys(PutAll(entries, keys, value))
  {
    if keys != [] {
      PutAllUnique(entries, keys[..|keys| - 1], value);
    }
  }

  /** The tokens of a countries property: String.split on a literal "|". A string with
      no "|" is one token, which is what onAppStart puts in that case. */
  function Tokens(countries: string): seq<string>
  {
    Split(countries, '|')
  }

  /** The map onAppStart builds: the allow tokens as true, then the deny tokens (when
      the property is set) as false. */
  function AccessListOf(allowCountries: string, denyCountries: Option<string>): seq<Entry>
  {
    var allowed := PutAll([], Tokens(allowCountries), true);
    if denyCountries.Some? then PutAll(allowed, Tokens(denyCountries.value), false) else allowed
  }

  /** What the two properties say about a key, read as lists of tokens: denied if it
      is a deny token (so deny wins over allow on a tie), allowed if it is only an
      allow token, not mentioned otherwise. */
  function Listing(allowCountries: string, denyCountries: Option<string>, key: string): Option<bool>
  {
    if denyCountries.Some? && key in Tokens(denyCountries.value) then Some(false)
    else if key in Tokens(allowCountries) then Some(true)
    else None
  }

  /** The built map is a map, and holds for every key what the properties say. */
  lemma AccessListMeaning(allowCountries: string, denyCountries: Option<string>, key: string)
    ensures UniqueKeys(AccessListOf(allowCountries, denyCountries))
    ensures Get(AccessListOf(allowCountries, denyCountries), key) == Listing(allowCountries, denyCountries, key)
  {
    var allowed := PutAll([], Tokens(allowCountries), true);
    PutAllThenGet([], Tokens(allowCountries), true, key);
    PutAllUnique([], Tokens(allowCountries), true);
    if denyCountries.Some? {
      PutAllThenGet(allowed, Tokens(denyCountries.value), false, key);
      PutAllUnique(allowed, Tokens(denyCountries.value), false);
    }
  }

  /** With no allow property the default "" is the one allow token, so the key ""
      is allowed unless the deny property names it. */
  lemma EmptyKeyAllowedByDefault(denyCountries: Option<string>)
    requires denyCountries.None? || "" !in Tokens(denyCountries.value)
    ensures Get(AccessListOf("", denyCountries), "") == Some(true)
  {
    AccessListMeaning("", denyCountries, "");
    assert Tokens("") == [""];
  }

  /** The tokens are the `|`-separated pieces of the property, minus the empty ones at
      its end; none of them holds a `|`. */
  lemma TokensMeaning(countries: string)
    ensures forall t :: t in Tokens(countries) ==> '|' !in t
    ensures '|' !in countries ==> Tokens(countries) == [countries]
    ensures '|' in countries ==>
              var ps := Pieces(countries, '|');
              var ts := Tokens(countries);
              && Join(ps, '|') == countries
              && ts == ps[..|ts|]
              && (forall j :: |ts| <= j < |ps| ==> ps[j] == "")
              && (ts == [] || ts[|ts| - 1] != "")
  {
    PiecesJoin(countries, '|');
    var ps := Pieces(countries, '|');
    var ts := Tokens(countries);
    forall t | t in ts ensures '|' !in t {
      var i :| 0 <= i < |ts| && ts[i] == t;
      if '|' in countries {
        assert ts[i] == ps[i];
      }
    }
  }

  // ---------------------------------------------------------------------------
  // The scan checkAddress makes over the map

  /** The value of the first entry whose key is the country's code or its name. */
  function MapScan(entries: seq<Entry>, code: string, name: string): Option<bool>
  {
    if entries == [] then None
    else if code == entries[0].0 || name == entries[0].0 then Some(entries[0].1)
    else MapScan(entries[1..], code, name)
  }

  /** The scan finds nothing exactly when neither key is in the map; when the code and
      the name do not disagree it finds the value the map holds for them, whatever the
      order of the entries. */
  lemma {:induction false} MapScanMeaning(entries: seq<Entry>, code: string, name: string)
    ensures MapScan(entries, code, name).None? <==> Get(entries, code).None? && Get(entries, name).None?
    ensures MapScan(entries, code, name).Some? ==>
              MapScan(entries, code, name) == Get(entries, code) || MapScan(entries, code, name) == Get(entries, name)
    ensures Get(entries, code).Some? && (Get(entries, name).None? || Get(entries, name) == Get(entries, code)) ==>
              MapScan(entries, code, name) == Get(entries, code)
    ensures Get(entries, name).Some? && (Get(entries, code).None? || Get(entries, code) == Get(entries, name)) ==>
              MapScan(entries, code, name) == Get(entries, name)
  {
    if entries != [] && code != entries[0].0 && name != entries[0].0 {
      MapScanMeaning(entries[1..], code, name);
    }
  }

  /** The entry at i is the first one keyed by the code or the name. */
  predicate FirstKeyAt(entries: seq<Entry>, code: string, name: string, i: int)
  {
    && 0 <= i < |entries|
    && (entries[i].0 == code || entries[i].0 == name)
    && forall j :: 0 <= j < i ==> entries[j].0 != code && entries[j].0 != name
  }

  /** The scan finds something exactly when some entry is keyed by the code or the
      name, and what it finds is the value of the first such entry, i.e. of the key
      that was put first. */
  lemma {:induction false} MapScanFirst(entries: seq<Entry>, code: string, name: string)
    ensures MapScan(entries, code, name).Some? <==> exists i :: FirstKeyAt(entries, code, name, i)
    ensures forall i :: FirstKeyAt(entries, code, name, i) ==> MapScan(entries, code, name) == Some(entries[i].1)
  {
    if entries != [] {
      var rest := entries[1..];
      if code == entries[0].0 || name == entries[0].0 {
        assert FirstKeyAt(entries, code, name, 0);
        forall i | FirstKeyAt(entries, code, name, i) ensures i == 0 {
        }
      } else {
        MapScanFirst(rest, code, name);
        forall i | FirstKeyAt(entries, code, name, i) ensures i > 0 && FirstKeyAt(rest, code, name, i - 1) {
          forall j | 0 <= j < i - 1 ensures rest[j].0 != code && rest[j].0 != name {
            assert rest[j] == entries[j + 1];
          }
        }
        forall i | FirstKeyAt(rest, code, name, i) ensures FirstKeyAt(entries, code, name, i + 1) {
          forall j | 0 <= j < i + 1 ensures entries[j].0 != code && entries[j].0 != name {
            if j > 0 {
              assert entries[j] == rest[j - 1];
            }
          }
        }
      }
    }
  }

  lemma ExampleTokens()
    ensures Tokens("NO|SE") == ["NO", "SE"] && Tokens("NO") == ["NO"]
  {
    assert "NO|SE" == "NO" + ['|'] + "SE";
    PiecesCons("NO", '|', "SE");
    assert IndexOf("SE", '|') == -1 by {
      assert '|' !in "SE";
    }
    assert IndexOf("NO", '|') == -1 by {
      assert '|' !in "NO";
    }
    assert IndexOf("NO|SE", '|') == 2 by {
      IndexOfFirst("NO", '|', "SE");
    }
    assert DropTrailingEmpty(["NO", "SE"]) == ["NO", "SE"];
  }

  /** With allow "NO|SE" and deny "NO", Norway is denied and Sweden allowed. */
  lemma AllowDenyExample()
    ensures Get(AccessListOf("NO|SE", Some("NO")), "NO") == Some(false)
    ensures Get(AccessListOf("NO|SE", Some("NO")), "SE") == Some(true)
  {
    ExampleTokens();
    AccessListMeaning("NO|SE", Some("NO"), "NO");
    AccessListMeaning("NO|SE", Some("NO"), "SE");
  }
}
