/**
 * Report filtering: for each requested name, in request order, the first
 * category whose rendered text contains that name. Rendering is the
 * category's text form (name, formatted amount and, for a limited expense
 * category, the remaining budget), so a name may also match the digits of an
 * amount or a longer category name. Unmatched names are skipped with a notice.
 */
module Reports {
  import opened Wrappers
  import opened Categories

  /** `needle` occurs in `hay` as a contiguous piece. */
  predicate Contains(hay: string, needle: string)
    decreases |hay|
  {
    |needle| <= |hay| && (hay[..|needle|] == needle || Contains(hay[1..], needle))
  }

  /** A slice equal to the needle at any offset makes it contained. */
  lemma {:induction false} SliceContained(hay: string, needle: string, k: nat)
    requires k + |needle| <= |hay| && hay[k..k + |needle|] == needle
    ensures Contains(hay, needle)
    decreases k
  {
    if k > 0 {
      assert hay[1..][k - 1..k - 1 + |needle|] == hay[k..k + |needle|];
      SliceContained(hay[1..], needle, k - 1);
    }
  }

  /** Text placed around a piece that contains the needle still contains it. */
  lemma {:induction false} ContainsInMiddle(a: string, b: string, c: string, needle: string)
    requires Contains(b, needle)
    ensures Contains(a + b + c, needle)
  {
    var k := ContainedSlice(b, needle);
    var t := a + b + c;
    assert t[|a| + k..|a| + k + |needle|] == b[k..k + |needle|];
    SliceContained(t, needle, |a| + k);
  }

  /** Conversely, a contained needle is a slice at some offset. */
  lemma {:induction false} ContainedSlice(hay: string, needle: string) returns (k: nat)
    requires Contains(hay, needle)
    ensures k + |needle| <= |hay| && hay[k..k + |needle|] == needle
    decreases |hay|
  {
    if hay[..|needle|] == needle {
      k := 0;
    } else {
      var j := ContainedSlice(hay[1..], needle);
      assert hay[j + 1..j + 1 + |needle|] == hay[1..][j..j + |needle|];
      k := j + 1;
    }
  }

  /** The text of an expense category, with amounts formatted by `fmt`. */
  function ExpensesText(c: ExpensesCategory, fmt: real -> string): (r: string)
    ensures |c.name| <= |r| && r[..|c.name|] == c.name
    ensures c.limit.None? ==> r == c.name + ": " + fmt(c.expenses) + "\n"
    ensures c.limit.Some? ==> Contains(r, ", Remaining budget: " + fmt(c.limit.value - c.expenses))
  {
    var head := c.name + ": " + fmt(c.expenses);
    match RemainingBudget(c)
    case None => head + "\n"
    case Some(b) =>
      var tail := ", Remaining budget: " + fmt(b);
      var r := head + tail + "\n";
      assert r[|head|..|head| + |tail|] == tail;
      SliceContained(r, tail, |head|);
      r
  }

  /** The text of an income category, with the amount formatted by `fmt`. */
  function IncomeText(c: IncomeCategory, fmt: real -> string): (r: string)
    ensures |c.name| <= |r| && r[..|c.name|] == c.name
  {
    c.name + ": " + fmt(c.income) + "\n"
  }

  /** Position of the first category whose text contains `name`. */
  function FirstMatch<T>(cats: seq<T>, render: T -> string, name: string): (r: Option<nat>)
    ensures r.Some? ==> r.value < |cats| && Contains(render(cats[r.value]), name)
    ensures r.Some? ==> forall j :: 0 <= j < r.value ==> !Contains(render(cats[j]), name)
    ensures r.None? <==> forall j :: 0 <= j < |cats| ==> !Contains(render(cats[j]), name)
  {
    if |cats| == 0 then None
    else if Contains(render(cats[0]), name) then Some(0)
    else
      match FirstMatch(cats[1..], render, name)
      case Some(i) => assert cats[1..][i] == cats[i + 1]; Some(i + 1)
      case None => assert forall j :: 1 <= j < |cats| ==> cats[j] == cats[1..][j - 1]; None
  }

  /** Reference definition: the categories chosen for `names`, one per matched name, in request order. */
  function Selected<T>(names: seq<string>, cats: seq<T>, render: T -> string): seq<T> {
    if |names| == 0 then []
    else
      var rest := Selected(names[..|names| - 1], cats, render);
      match FirstMatch(cats, render, names[|names| - 1])
      case Some(i) => rest + [cats[i]]
      case None => rest
  }

  /** Reference definition: the names that produced a not-found notice, in request order. */
  function Unmatched<T>(names: seq<string>, cats: seq<T>, render: T -> string): seq<string> {
    if |names| == 0 then []
    else
      var rest := Unmatched(names[..|names| - 1], cats, render);
      if FirstMatch(cats, render, names[|names| - 1]).None? then rest + [names[|names| - 1]] else rest
  }

  /**
   * The report filter. Each requested name yields either exactly one
   * category (the first whose text contains it) or one not-found notice.
   */
  method FindCategoriesByName<T>(names: seq<string>, cats: seq<T>, render: T -> string)
    returns (result: seq<T>, notFound: seq<string>)
    ensures result == Selected(names, cats, render)
    ensures notFound == Unmatched(names, cats, render)
    ensures |result| + |notFound| == |names|
    ensures forall k :: 0 <= k < |result| ==> result[k] in cats
    ensures forall k :: 0 <= k < |notFound| ==>
      notFound[k] in names && forall c :: c in cats ==> !Contains(render(c), notFound[k])
  {
    result := [];
    notFound := [];
    var i := 0;
    while i < |names|
      invariant 0 <= i <= |names|
      invariant result == Selected(names[..i], cats, render)
      invariant notFound == Unmatched(names[..i], cats, render)
      invariant |result| + |notFound| == i
      invariant forall k :: 0 <= k < |result| ==> result[k] in cats
      invariant forall k :: 0 <= k < |notFound| ==>
        notFound[k] in names[..i] && forall c :: c in cats ==> !Contains(render(c), notFound[k])
    {
      assert names[..i + 1][..i] == names[..i];
      var found := FirstMatch(cats, render, names[i]);
      if found.Some? {
        result := result + [cats[found.value]];
      } else {
        notFound := notFound + [names[i]];
      }
      i := i + 1;
    }
    assert names[..i] == names;
  }

  /**
   * A category whose text starts with the requested name is never reported
   * missing, though an earlier category whose text also contains the name
   * is chosen in its place.
   */
  lemma ExactNameNeverMissing<T>(cats: seq<T>, render: T -> string, name: string, i: nat)
    requires i < |cats| && |name| <= |render(cats[i])| && render(cats[i])[..|name|] == name
    ensures FirstMatch(cats, render, name).Some?
    ensures FirstMatch(cats, render, name).value <= i
  {
    assert Contains(render(cats[i]), name);
  }

  /**
   * Matching is on the rendered text, not on the name alone: a requested
   * name that occurs in the formatted amount of an income category selects it.
   */
  lemma AmountTextMatches(c: IncomeCategory, fmt: real -> string, name: string)
    requires Contains(fmt(c.income), name)
    ensures Contains(IncomeText(c, fmt), name)
  {
    ContainsInMiddle(c.name + ": ", fmt(c.income), "\n", name);
  }
}
