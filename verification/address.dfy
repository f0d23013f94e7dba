/**
 The cleaner address `get_address_from_coordinates` builds from the
 components of a Nominatim reply: one part per group of keys, in a fixed
 order, each the value of the first key of its group that is set.
 */
module AddressFormat {
  import opened Optional
  import opened Text

  /** The component keys, grouped as the source tries them: within a group
      the first key with a value wins. */
  const KeyGroups: seq<seq<string>> := [
    ["building", "house_number"],
    ["road", "neighbourhood"],
    ["suburb"],
    ["city", "town", "village"],
    ["postcode"],
    ["state"],
    ["country"]
  ]

  const Separator: string := ", "

  /** `addr.get(key)` is truthy: the key is there and its value is not empty. */
  predicate Present(addr: map<string, string>, key: string) {
    key in addr && addr[key] != ""
  }

  /** The value of the first key of `keys` that is present. */
  function FirstPresent(addr: map<string, string>, keys: seq<string>): (r: Option<string>) {
    if |keys| == 0 then None
    else if Present(addr, keys[0]) then Some(addr[keys[0]])
    else FirstPresent(addr, keys[1..])
  }

  /** A group picks the value of its first present key, and nothing when no
      key of it is present. */
  lemma {:induction false} FirstPresentSpec(addr: map<string, string>, keys: seq<string>)
    ensures FirstPresent(addr, keys).None? <==> forall j :: 0 <= j < |keys| ==> !Present(addr, keys[j])
    ensures FirstPresent(addr, keys).Some? ==>
              exists j :: 0 <= j < |keys| && Present(addr, keys[j]) && FirstPresent(addr, keys).value == addr[keys[j]]
                          && forall i :: 0 <= i < j ==> !Present(addr, keys[i])
  {
    if |keys| > 0 && !Present(addr, keys[0]) {
      FirstPresentSpec(addr, keys[1..]);
      if FirstPresent(addr, keys).Some? {
        var j :| 0 <= j < |keys[1..]| && Present(addr, keys[1..][j]) && FirstPresent(addr, keys).value == addr[keys[1..][j]]
                 && forall i :: 0 <= i < j ==> !Present(addr, keys[1..][i]);
        assert forall i :: 0 <= i < j + 1 ==> !Present(addr, keys[i]) by {
          forall i | 0 <= i < j + 1 ensures !Present(addr, keys[i]) {
            if i > 0 {
              assert keys[i] == keys[1..][i - 1];
            }
          }
        }
      }
    }
  }

  /** `formatted_parts`: one part per group that has a present key. */
  function Parts(addr: map<string, string>, groups: seq<seq<string>>): (r: seq<string>)
    ensures |r| <= |groups|
  {
    if |groups| == 0 then [] else Step(addr, groups[0]) + Parts(addr, groups[1..])
  }

  /** `', '.join(formatted_parts) if formatted_parts else address` */
  function FormatAddress(addr: map<string, string>, displayName: string): (r: string) {
    var parts := Parts(addr, KeyGroups);
    if |parts| == 0 then displayName else Join(parts, Separator)
  }

  /** The seven `if`/`elif` blocks of the source, run as a loop over the
      groups: each block appends the value of the first present key of its
      group, if there is one. */
  method CollectParts(addr: map<string, string>, groups: seq<seq<string>>) returns (parts: seq<string>)
    ensures parts == Parts(addr, groups)
  {
    parts := [];
    for g := 0 to |groups|
      invariant parts + Parts(addr, groups[g..]) == Parts(addr, groups)
    {
      var part := GroupPart(addr, groups[g]);
      assert parts + part + Parts(addr, groups[g + 1..]) == Parts(addr, groups) by {
        PartsFrom(addr, groups, g);
        assert parts + part + Parts(addr, groups[g + 1..]) == parts + (part + Parts(addr, groups[g + 1..]));
      }
      parts := parts + part;
    }
    assert groups[|groups|..] == [];
  }

  /** One `if`/`elif` block: the value of the first key whose value is
      truthy, or nothing. */
  method GroupPart(addr: map<string, string>, keys: seq<string>) returns (part: seq<string>)
    ensures part == Step(addr, keys)
  {
    var k := 0;
    while k < |keys| && !Present(addr, keys[k])
      invariant k <= |keys|
      invariant FirstPresent(addr, keys[k..]) == FirstPresent(addr, keys)
    {
      assert keys[k..][1..] == keys[k + 1..];
      k := k + 1;
    }
    if k < |keys| {
      assert keys[k..][0] == keys[k];
      part := [addr[keys[k]]];
    } else {
      assert keys[k..] == [];
      part := [];
    }
  }

  /** `formatted_address`, computed the way the source does. */
  method FormatAddressSteps(addr: map<string, string>, displayName: string) returns (r: string)
    ensures r == FormatAddress(addr, displayName)
    ensures var picked := Chosen(Picks(addr, KeyGroups));
            r == if picked == [] then displayName else Join(picked, Separator)
  {
    assert KeyGroups[0..] == KeyGroups;
    var parts := CollectParts(addr, KeyGroups);
    r := if |parts| == 0 then displayName else Join(parts, Separator);
    PartsAreChosen(addr, KeyGroups);
  }

  lemma PartsFrom(addr: map<string, string>, g: seq<seq<string>>, k: nat)
    requires k < |g|
    ensures Parts(addr, g[k..]) == Step(addr, g[k]) + Parts(addr, g[k + 1..])
  {
    assert g[k..][1..] == g[k + 1..];
  }

  /** The part one group contributes. */
  function Step(addr: map<string, string>, keys: seq<string>): (r: seq<string>)
    ensures |r| <= 1
  {
    match FirstPresent(addr, keys)
    case Some(v) => [v]
    case None => []
  }

  // Properties

  /** `idx` lists, in increasing order, the groups that pick something,
      and the parts are their picks. */
  ghost predicate ListsPicks(addr: map<string, string>, groups: seq<seq<string>>, idx: seq<nat>) {
    && |idx| == |Parts(addr, groups)|
    && (forall k :: 0 <= k < |idx| ==> idx[k] < |groups| && FirstPresent(addr, groups[idx[k]]) == Some(Parts(addr, groups)[k]))
    && (forall k, l :: 0 <= k < l < |idx| ==> idx[k] < idx[l])
    && (forall g :: 0 <= g < |groups| && FirstPresent(addr, groups[g]).Some? ==> g in idx)
  }

  /** The parts are the picks of the groups that pick something, in group
      order. */
  lemma PartsInGroupOrder(addr: map<string, string>, groups: seq<seq<string>>) returns (idx: seq<nat>)
    ensures ListsPicks(addr, groups, idx)
  {
    idx := ChosenIndices(Picks(addr, groups));
    PartsAreChosen(addr, groups);
    PicksAt(addr, groups);
  }

  /** The pick of every group, in order. */
  function Picks(addr: map<string, string>, groups: seq<seq<string>>): (r: seq<Option<string>>)
    ensures |r| == |groups|
  {
    if |groups| == 0 then [] else [FirstPresent(addr, groups[0])] + Picks(addr, groups[1..])
  }

  /** The values of the picks that are something, in order. */
  function Chosen(picks: seq<Option<string>>): (r: seq<string>) {
    if |picks| == 0 then []
    else (if picks[0].Some? then [picks[0].value] else []) + Chosen(picks[1..])
  }

  lemma {:induction false} PicksAt(addr: map<string, string>, groups: seq<seq<string>>)
    ensures forall g :: 0 <= g < |groups| ==> Picks(addr, groups)[g] == FirstPresent(addr, groups[g])
  {
    if |groups| > 0 {
      PicksAt(addr, groups[1..]);
      assert forall g :: 1 <= g < |groups| ==> groups[g] == groups[1..][g - 1];
    }
  }

  lemma {:induction false} PartsAreChosen(addr: map<string, string>, groups: seq<seq<string>>)
    ensures Parts(addr, groups) == Chosen(Picks(addr, groups))
  {
    if |groups| > 0 {
      PartsAreChosen(addr, groups[1..]);
      assert Picks(addr, groups)[1..] == Picks(addr, groups[1..]);
    }
  }

  /** `idx` lists, in increasing order, the positions of the picks that are
      something, and `chosen` lists their values. */
  ghost predicate ListsSomes(picks: seq<Option<string>>, chosen: seq<string>, idx: seq<nat>) {
    && |idx| == |chosen|
    && (forall k :: 0 <= k < |idx| ==> idx[k] < |picks| && picks[idx[k]] == Some(chosen[k]))
    && (forall k, l :: 0 <= k < l < |idx| ==> idx[k] < idx[l])
    && (forall g :: 0 <= g < |picks| && picks[g].Some? ==> g in idx)
  }

  lemma {:induction false} ChosenIndices(picks: seq<Option<string>>) returns (idx: seq<nat>)
    ensures ListsSomes(picks, Chosen(picks), idx)
  {
    if |picks| == 0 {
      idx := [];
    } else {
      var rest := Chosen(picks[1..]);
      var tail := ChosenIndices(picks[1..]);
      if picks[0].None? {
        assert Chosen(picks) == rest;
        idx := SkipPick(picks, rest, tail);
      } else {
        assert Chosen(picks) == [picks[0].value] + rest;
        idx := TakePick(picks, rest, tail);
      }
    }
  }

  lemma SkipPick(picks: seq<Option<string>>, chosen: seq<string>, tail: seq<nat>) returns (idx: seq<nat>)
    requires |picks| > 0 && picks[0].None? && ListsSomes(picks[1..], chosen, tail)
    ensures ListsSomes(picks, chosen, idx)
  {
    idx := Shift(tail);
    var rest := picks[1..];
    assert forall k :: 0 <= k < |idx| ==> picks[idx[k]] == rest[tail[k]];
    forall g | 0 <= g < |picks| && picks[g].Some? ensures g in idx {
      assert picks[g] == rest[g - 1];
    }
  }

  lemma TakePick(picks: seq<Option<string>>, chosen: seq<string>, tail: seq<nat>) returns (idx: seq<nat>)
    requires |picks| > 0 && picks[0].Some? && ListsSomes(picks[1..], chosen, tail)
    ensures ListsSomes(picks, [picks[0].value] + chosen, idx)
  {
    var shifted := Shift(tail);
    idx := [0] + shifted;
    assert forall k :: 1 <= k < |idx| ==> idx[k] == shifted[k - 1];
    assert forall g :: 1 <= g < |picks| ==> picks[g] == picks[1..][g - 1];
  }

  /** Every index one further on. */
  lemma Shift(tail: seq<nat>) returns (shifted: seq<nat>)
    ensures |shifted| == |tail|
    ensures forall k :: 0 <= k < |tail| ==> shifted[k] == tail[k] + 1
    ensures forall g :: g > 0 && g - 1 in tail ==> g in shifted
    ensures forall g :: g in shifted ==> g > 0 && g - 1 in tail
  {
    shifted := seq(|tail|, k requires 0 <= k < |tail| => tail[k] + 1);
    forall g | g > 0 && g - 1 in tail ensures g in shifted {
      var k :| 0 <= k < |tail| && tail[k] == g - 1;
      assert shifted[k] == g;
    }
  }

  /** Without any component the display name is used. */
  lemma NoComponents(addr: map<string, string>, displayName: string)
    requires forall g, k :: 0 <= g < |KeyGroups| && 0 <= k < |KeyGroups[g]| ==> !Present(addr, KeyGroups[g][k])
    ensures FormatAddress(addr, displayName) == displayName
  {
    NoPartsWithoutKeys(addr, KeyGroups);
  }

  lemma {:induction false} NoPartsWithoutKeys(addr: map<string, string>, groups: seq<seq<string>>)
    requires forall g, k :: 0 <= g < |groups| && 0 <= k < |groups[g]| ==> !Present(addr, groups[g][k])
    ensures Parts(addr, groups) == []
  {
    if |groups| > 0 {
      assert forall k :: 0 <= k < |groups[0]| ==> !Present(addr, groups[0][k]);
      FirstPresentSpec(addr, groups[0]);
      assert forall g, k :: 0 <= g < |groups[1..]| && 0 <= k < |groups[1..][g]| ==> !Present(addr, groups[1..][g][k]) by {
        forall g, k | 0 <= g < |groups[1..]| && 0 <= k < |groups[1..][g]|
          ensures !Present(addr, groups[1..][g][k])
        {
          assert groups[1..][g] == groups[g + 1];
        }
      }
      NoPartsWithoutKeys(addr, groups[1..]);
    }
  }

  /** With the first key of every group set, the parts are those seven
      values in order, separated by ", ". */
  lemma AllPrimaryKeys(addr: map<string, string>, displayName: string)
    requires Present(addr, "building") && Present(addr, "road") && Present(addr, "suburb")
    requires Present(addr, "city") && Present(addr, "postcode") && Present(addr, "state") && Present(addr, "country")
    ensures FormatAddress(addr, displayName) ==
              addr["building"] + ", " + addr["road"] + ", " + addr["suburb"] + ", " + addr["city"]
              + ", " + addr["postcode"] + ", " + addr["state"] + ", " + addr["country"]
  {
    AllPrimaryParts(addr);
    JoinSeven([addr["building"], addr["road"], addr["suburb"], addr["city"], addr["postcode"], addr["state"], addr["country"]], Separator);
  }

  lemma AllPrimaryParts(addr: map<string, string>)
    requires Present(addr, "building") && Present(addr, "road") && Present(addr, "suburb")
    requires Present(addr, "city") && Present(addr, "postcode") && Present(addr, "state") && Present(addr, "country")
    ensures Parts(addr, KeyGroups) ==
              [addr["building"], addr["road"], addr["suburb"], addr["city"], addr["postcode"], addr["state"], addr["country"]]
  {
    var primary := ["building", "road", "suburb", "city", "postcode", "state", "country"];
    assert forall g :: 0 <= g < |KeyGroups| ==> |KeyGroups[g]| > 0 && KeyGroups[g][0] == primary[g];
    PartsOfFirstKeys(addr, KeyGroups);
  }

  /** When the first key of every group is present, each group contributes
      that key's value. */
  lemma {:induction false} PartsOfFirstKeys(addr: map<string, string>, groups: seq<seq<string>>)
    requires forall g :: 0 <= g < |groups| ==> |groups[g]| > 0 && Present(addr, groups[g][0])
    ensures |Parts(addr, groups)| == |groups|
    ensures forall g :: 0 <= g < |groups| ==> groups[g][0] in addr && Parts(addr, groups)[g] == addr[groups[g][0]]
  {
    if |groups| > 0 {
      assert forall g :: 0 <= g < |groups| - 1 ==> groups[1..][g] == groups[g + 1];
      PartsOfFirstKeys(addr, groups[1..]);
    }
  }

  lemma JoinSeven(ps: seq<string>, sep: string)
    requires |ps| == 7
    ensures Join(ps, sep) == ps[0] + sep + ps[1] + sep + ps[2] + sep + ps[3] + sep + ps[4] + sep + ps[5] + sep + ps[6]
  {
    JoinCons(ps, sep);
    JoinCons(ps[1..], sep);
    JoinCons(ps[2..], sep);
    JoinCons(ps[3..], sep);
    JoinCons(ps[4..], sep);
    JoinCons(ps[5..], sep);
  }

  lemma JoinCons(parts: seq<string>, sep: string)
    requires |parts| >= 2
    ensures Join(parts, sep) == parts[0] + sep + Join(parts[1..], sep)
  {
  }

  /** A fallback key is not consulted while an earlier key of its group is
      present: changing or removing it does not change the result. */
  lemma ShadowedKeyIgnored(addr: map<string, string>, displayName: string, g: nat, i: nat, j: nat, v: string)
    requires g < |KeyGroups| && i < j < |KeyGroups[g]|
    requires Present(addr, KeyGroups[g][i])
    ensures FormatAddress(addr[KeyGroups[g][j] := v], displayName) == FormatAddress(addr, displayName)
  {
    var k := KeyGroups[g][j];
    var addr2 := addr[k := v];
    assert KeyGroups[g][i] != k;
    forall h | 0 <= h < |KeyGroups|
      ensures FirstPresent(addr2, KeyGroups[h]) == FirstPresent(addr, KeyGroups[h])
    {
      if h == g {
        SameUpTo(addr, addr2, KeyGroups[g], i);
      } else {
        assert k !in KeyGroups[h];
        SameOutside(addr, addr2, KeyGroups[h], k);
      }
    }
    SameSteps(addr, addr2, KeyGroups);
  }

  /** A key outside every group does not matter. */
  lemma OtherKeyIgnored(addr: map<string, string>, displayName: string, k: string, v: string)
    requires forall g :: 0 <= g < |KeyGroups| ==> k !in KeyGroups[g]
    ensures FormatAddress(addr[k := v], displayName) == FormatAddress(addr, displayName)
  {
    forall h | 0 <= h < |KeyGroups|
      ensures FirstPresent(addr[k := v], KeyGroups[h]) == FirstPresent(addr, KeyGroups[h])
    {
      SameOutside(addr, addr[k := v], KeyGroups[h], k);
    }
    SameSteps(addr, addr[k := v], KeyGroups);
  }

  /** An empty value counts as a missing key. */
  lemma EmptyIsMissing(addr: map<string, string>, displayName: string, k: string)
    ensures FormatAddress(addr[k := ""], displayName) == FormatAddress(addr - {k}, displayName)
  {
    var a := addr[k := ""];
    var b := addr - {k};
    forall h | 0 <= h < |KeyGroups|
      ensures FirstPresent(a, KeyGroups[h]) == FirstPresent(b, KeyGroups[h])
    {
      SamePresence(a, b, KeyGroups[h]);
    }
    SameSteps(a, b, KeyGroups);
  }

  /** Two maps that agree on which keys are present, and on their values,
      pick the same value from a group. */
  lemma {:induction false} SamePresence(a: map<string, string>, b: map<string, string>, keys: seq<string>)
    requires forall k :: Present(a, k) <==> Present(b, k)
    requires forall k :: Present(a, k) ==> k in b && a[k] == b[k]
    ensures FirstPresent(a, keys) == FirstPresent(b, keys)
  {
    if |keys| > 0 {
      SamePresence(a, b, keys[1..]);
    }
  }

  /** Changing a key that is not in a group does not change what the group
      picks. */
  lemma {:induction false} SameOutside(a: map<string, string>, b: map<string, string>, keys: seq<string>, k: string)
    requires k !in keys
    requires forall x :: x != k ==> (x in a <==> x in b)
    requires forall x :: x != k && x in a ==> a[x] == b[x]
    ensures FirstPresent(a, keys) == FirstPresent(b, keys)
  {
    if |keys| > 0 {
      assert keys[0] != k;
      SameOutside(a, b, keys[1..], k);
    }
  }

  /** Changing a key after a present one does not change what the group
      picks. */
  lemma {:induction false} SameUpTo(a: map<string, string>, b: map<string, string>, keys: seq<string>, i: nat)
    requires i < |keys| && Present(a, keys[i]) && Present(b, keys[i]) && a[keys[i]] == b[keys[i]]
    requires forall x :: 0 <= x < i ==> (Present(a, keys[x]) <==> Present(b, keys[x]))
    requires forall x :: 0 <= x < i && Present(a, keys[x]) ==> keys[x] in b && a[keys[x]] == b[keys[x]]
    ensures FirstPresent(a, keys) == FirstPresent(b, keys)
  {
    if i > 0 && !Present(a, keys[0]) {
      SameUpTo(a, b, keys[1..], i - 1);
    }
  }

  /** Groups that pick the same values give the same parts. */
  lemma {:induction false} SameSteps(a: map<string, string>, b: map<string, string>, groups: seq<seq<string>>)
    requires forall h :: 0 <= h < |groups| ==> FirstPresent(a, groups[h]) == FirstPresent(b, groups[h])
    ensures Parts(a, groups) == Parts(b, groups)
  {
    if |groups| > 0 {
      assert FirstPresent(a, groups[0]) == FirstPresent(b, groups[0]);
      assert forall h :: 0 <= h < |groups[1..]| ==> groups[1..][h] == groups[h + 1];
      SameSteps(a, b, groups[1..]);
    }
  }
}
