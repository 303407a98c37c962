/** Zero-padded names of generated tasks, buildscripts/util/taskname.py. */
module TaskName {
  import opened Sequences
  import opened Text

  /** ceil(log10(total)): the least w with 10^w >= total. */
  function IndexWidth(total: nat): (w: nat)
    requires total >= 1
    ensures total <= Pow10(w) && (w > 0 ==> Pow10(w - 1) < total)
  {
    if total == 1 then 0 else 1 + IndexWidth((total + 9) / 10)
  }

  function Suffix(variant: Option<string>): string {
    if variant.Some? && variant.value != "" then "_" + variant.value else ""
  }

  function NameGeneratedTask(parent: string, index: nat, total: nat, variant: Option<string>): string
    requires total >= 1
  {
    parent + "_" + Zfill(Str(index), IndexWidth(total)) + Suffix(variant)
  }

  /** All indices below `total` print with the same number of digits. */
  lemma NumeralsArePadded(index: nat, total: nat)
    requires index < total
    ensures var w := if total == 1 then 1 else IndexWidth(total);
            index < Pow10(w) && Zfill(Str(index), IndexWidth(total)) == Padded(index, w)
  {
    if total == 1 {
      assert Padded(0, 1) == Padded(0, 0) + [Digit(0)];
    } else {
      ZfillIsPadded(index, IndexWidth(total));
    }
  }

  /** Names sort as their indices do, so no two of them coincide. */
  lemma NamesFollowIndices(parent: string, variant: Option<string>, total: nat, i: nat, j: nat)
    requires i < total && j < total
    ensures var a, b := NameGeneratedTask(parent, i, total, variant), NameGeneratedTask(parent, j, total, variant);
            (Less(a, b) <==> i < j) && (a == b <==> i == j)
  {
    NumeralsArePadded(i, total);
    NumeralsArePadded(j, total);
    var w := if total == 1 then 1 else IndexWidth(total);
    PaddedOrder(i, j, w);
    LessInContext(parent + "_", Padded(i, w), Padded(j, w), Suffix(variant));
  }

  /** A name ends in its variant, so different variants give different names. */
  lemma NamesTellVariants(parent: string, index: nat, total: nat, v: string, v': string)
    requires total >= 1 && v != "" && v' != ""
    ensures EndsWith(NameGeneratedTask(parent, index, total, Some(v)), "_" + v)
    ensures NameGeneratedTask(parent, index, total, Some(v)) == NameGeneratedTask(parent, index, total, None) + "_" + v
    ensures NameGeneratedTask(parent, index, total, Some(v)) == NameGeneratedTask(parent, index, total, Some(v')) <==> v == v'
  {
    var stem := parent + "_" + Zfill(Str(index), IndexWidth(total));
    assert (stem + ("_" + v))[|stem| + 1..] == v && (stem + ("_" + v'))[|stem| + 1..] == v';
    assert stem + "" == stem;
    assert stem + ("_" + v) == stem + "_" + v;
  }
}
