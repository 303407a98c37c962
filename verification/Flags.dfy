/** Decoding a bit-flag value into names: _get_flags of buildscripts/gdb/mongo_printers.py. */
module Flags {
  import opened Sequences

  datatype Flag = Flag(name: string, value: int)

  function Total(flags: seq<Flag>): int {
    if flags == [] then 0 else flags[0].value + Total(flags[1..])
  }

  /** Highest first, and each worth more than all later ones together, as distinct powers of two are. */
  ghost predicate Superincreasing(flags: seq<Flag>)
    decreases |flags|
  {
    flags != [] ==> flags[0].value > Total(flags[1..]) && Superincreasing(flags[1..])
  }

  /** The flags of the list that `chosen` picks, in order. */
  function Picked(flags: seq<Flag>, chosen: seq<bool>): seq<Flag>
    requires |flags| == |chosen|
  {
    if flags == [] then []
    else (if chosen[0] then [flags[0]] else []) + Picked(flags[1..], chosen[1..])
  }

  function Names(flags: seq<Flag>): seq<string> {
    seq(|flags|, i requires 0 <= i < |flags| => flags[i].name)
  }

  /** The flags the loop takes. */
  function Greedy(value: int, flags: seq<Flag>): seq<Flag>
    decreases |flags|
  {
    if flags == [] then []
    else if value < flags[0].value then Greedy(value, flags[1..])
    else [flags[0]] + Greedy(value - flags[0].value, flags[1..])
  }

  lemma {:induction false} PickedTotal(flags: seq<Flag>, chosen: seq<bool>)
    requires |flags| == |chosen| && Superincreasing(flags)
    ensures 0 <= Total(Picked(flags, chosen)) <= Total(flags)
    decreases |flags|
  {
    if flags != [] {
      PickedTotal(flags[1..], chosen[1..]);
      var rest := Picked(flags[1..], chosen[1..]);
      assert ([flags[0]] + rest)[1..] == rest && [] + rest == rest;
    }
  }

  /** Decoding the sum of any choice of flags gives back exactly that choice. */
  lemma {:induction false} GreedyDecodes(flags: seq<Flag>, chosen: seq<bool>)
    requires |flags| == |chosen| && Superincreasing(flags)
    ensures Greedy(Total(Picked(flags, chosen)), flags) == Picked(flags, chosen)
    decreases |flags|
  {
    if flags != [] {
      PickedTotal(flags[1..], chosen[1..]);
      GreedyDecodes(flags[1..], chosen[1..]);
      var rest := Picked(flags[1..], chosen[1..]);
      assert ([flags[0]] + rest)[1..] == rest && [] + rest == rest;
    }
  }

  /** Every choice of flags is printed by its names. */
  ghost predicate Decodable(flags: seq<Flag>) {
    forall chosen: seq<bool> :: |chosen| == |flags| ==> DecodesTo(flags, Picked(flags, chosen))
  }

  ghost predicate DecodesTo(flags: seq<Flag>, picked: seq<Flag>) {
    Names(Greedy(Total(picked), flags)) == Names(picked)
  }

  lemma {:induction false} PickedMembers(flags: seq<Flag>, chosen: seq<bool>)
    requires |flags| == |chosen|
    ensures forall f :: f in Picked(flags, chosen) ==> f in flags
  {
    if flags != [] {
      PickedMembers(flags[1..], chosen[1..]);
    }
  }

  lemma {:induction false} PickedAll(flags: seq<Flag>)
    ensures Picked(flags, seq(|flags|, _ => true)) == flags
  {
    if flags != [] {
      PickedAll(flags[1..]);
      assert seq(|flags|, _ => true)[1..] == seq(|flags[1..]|, _ => true);
    }
  }

  /** A choice that leaves out the first flag is decoded as if that flag were not in the list. */
  lemma SkipFirst(flags: seq<Flag>, chosen: seq<bool>)
    requires flags != [] && NoDuplicates(Names(flags)) && Decodable(flags) && |chosen| == |flags| - 1
    ensures var rest := Picked(flags[1..], chosen); Total(rest) < flags[0].value && DecodesTo(flags[1..], rest)
  {
    var whole := [false] + chosen;
    assert whole[1..] == chosen;
    var rest := Picked(flags[1..], chosen);
    assert Picked(flags, whole) == [] + rest == rest;
    assert DecodesTo(flags, Picked(flags, whole));
    PickedMembers(flags[1..], chosen);
    assert rest != [] ==> rest[0] in rest && rest[0].name != flags[0].name by {
      if rest != [] {
        assert rest[0] in rest && rest[0] in flags[1..];
        var k :| 1 <= k < |flags| && flags[k] == rest[0];
        assert Names(flags)[0] != Names(flags)[k];
      }
    }
    assert rest != [] ==> Names(rest)[0] == rest[0].name;
  }

  /** Flags with distinct names are decodable if and only if each is worth more than all later ones together. */
  lemma {:induction false} DecodableExactly(flags: seq<Flag>)
    requires NoDuplicates(Names(flags))
    ensures Decodable(flags) <==> Superincreasing(flags)
    decreases |flags|
  {
    if Superincreasing(flags) {
      forall chosen: seq<bool> | |chosen| == |flags| ensures DecodesTo(flags, Picked(flags, chosen)) {
        GreedyDecodes(flags, chosen);
      }
    }
    if Decodable(flags) && flags != [] {
      var rest := flags[1..];
      PickedAll(rest);
      SkipFirst(flags, seq(|rest|, _ => true));
      forall chosen: seq<bool> | |chosen| == |rest| ensures DecodesTo(rest, Picked(rest, chosen)) {
        SkipFirst(flags, chosen);
      }
      assert Names(rest) == Names(flags)[1..];
      DecodableExactly(rest);
    }
  }

  /** None stands for the message that the flags could not be read from the source. */
  method GetFlags(value: int, flags: seq<Flag>) returns (r: Option<seq<string>>)
    ensures r.None? <==> flags == []
    ensures r.Some? ==> r.value == Names(Greedy(value, flags))
  {
    if flags == [] {
      return None;
    }
    var left, names: seq<string> := value, [];
    ghost var taken: seq<Flag> := [];
    for i := 0 to |flags|
      invariant names == Names(taken) && Greedy(value, flags) == taken + Greedy(left, flags[i..])
    {
      assert flags[i..][0] == flags[i] && flags[i..][1..] == flags[i + 1..];
      if left < flags[i].value {
        continue;
      }
      names, taken := names + [flags[i].name], taken + [flags[i]];
      left := left - flags[i].value;
    }
    assert flags[|flags|..] == [];
    return Some(names);
  }

  /** Highest first is not enough: 4 == 2 + 2 is decoded as the 3 alone. */
  lemma OrderAloneIsNotEnough()
    ensures var flags := [Flag("a", 3), Flag("b", 2), Flag("c", 2)];
            Total(Picked(flags, [false, true, true])) == 4 && Greedy(4, flags) == [flags[0]]
  {
    var flags := [Flag("a", 3), Flag("b", 2), Flag("c", 2)];
    assert flags[1..] == [flags[1], flags[2]] && flags[1..][1..] == [flags[2]] && flags[1..][1..][1..] == [];
    var chosen := [false, true, true];
    assert chosen[1..] == [true, true] && chosen[1..][1..] == [true] && chosen[1..][1..][1..] == [];
    assert Picked([flags[2]], [true]) == [flags[2]];
    assert Picked(flags[1..], chosen[1..]) == [flags[1], flags[2]] == Picked(flags, chosen);
    assert [flags[1], flags[2]][1..] == [flags[2]] && [flags[2]][1..] == [];
    assert Total([flags[2]]) == 2 + Total([]) && Total([flags[1], flags[2]]) == 2 + Total([flags[2]]);
    assert Greedy(1, [flags[2]]) == [];
    assert Greedy(1, flags[1..]) == [];
  }
}
