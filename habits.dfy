/** The tracker's data model (habits and their logged days) and the pure
    transformations the store applies to the collection of habits. */
module Habits {
  import opened Wrappers

  /** One logged day. It has no id: its identity is its position in `days`. */
  datatype Day = Day(comment: string)

  /** A tracked habit. `target` is the goal exactly as typed into the form. */
  datatype Habbit = Habbit(id: int, name: string, target: string, icon: string, days: seq<Day>)

  predicate IdsDistinct(hs: seq<Habbit>) {
    forall i, j :: 0 <= i < j < |hs| ==> hs[i].id != hs[j].id
  }

  /** Whether `id` (possibly undefined) equals some habit's id under `===`. */
  predicate Matches(h: Habbit, id: Option<int>) {
    id == Some(h.id)
  }

  /** The position of the first habit that `id` matches, or `|hs|` when none does. */
  function FirstWithId(hs: seq<Habbit>, id: Option<int>): (k: nat)
    ensures k <= |hs|
    ensures forall i :: 0 <= i < k ==> !Matches(hs[i], id)
    ensures k < |hs| ==> Matches(hs[k], id)
  {
    if hs == [] then 0
    else if Matches(hs[0], id) then 0
    else 1 + FirstWithId(hs[1..], id)
  }

  /** `habbits.find(h => h.id === id)`. */
  function Find(hs: seq<Habbit>, id: Option<int>): (r: Option<Habbit>)
    ensures r.None? <==> forall j :: 0 <= j < |hs| ==> !Matches(hs[j], id)
    ensures r.Some? ==> r.value in hs && Matches(r.value, id)
    ensures r.Some? ==> exists k :: 0 <= k < |hs| && hs[k] == r.value && forall i :: 0 <= i < k ==> !Matches(hs[i], id)
  {
    var k := FirstWithId(hs, id);
    if k < |hs| then Some(hs[k]) else None
  }

  /** The left fold `habbits.reduce((acc, h) => acc > h.id ? acc : h.id, acc)`. */
  function MaxIdFrom(acc: int, hs: seq<Habbit>): int
    decreases |hs|
  {
    if hs == [] then acc
    else MaxIdFrom(if acc > hs[0].id then acc else hs[0].id, hs[1..])
  }

  /** The fold result is the maximum of `acc` and all ids. */
  lemma {:induction false} MaxIdFromIsMaximum(acc: int, hs: seq<Habbit>)
    ensures acc <= MaxIdFrom(acc, hs)
    ensures forall j :: 0 <= j < |hs| ==> hs[j].id <= MaxIdFrom(acc, hs)
    ensures MaxIdFrom(acc, hs) == acc || exists j :: 0 <= j < |hs| && hs[j].id == MaxIdFrom(acc, hs)
    decreases |hs|
  {
    if hs != [] {
      var acc' := if acc > hs[0].id then acc else hs[0].id;
      var tail := hs[1..];
      MaxIdFromIsMaximum(acc', tail);
      var m := MaxIdFrom(acc', tail);
      assert m == MaxIdFrom(acc, hs);
      forall j | 0 <= j < |hs| ensures hs[j].id <= m {
        if j > 0 { assert hs[j] == tail[j - 1]; }
      }
      if m != acc {
        if m == acc' {
          assert hs[0].id == m;
        } else {
          var j :| 0 <= j < |tail| && tail[j].id == m;
          assert hs[j + 1].id == m;
        }
      }
    }
  }

  /** The id `addHabbit` gives a new habit: one more than the maximum of 0 and
      every existing id. */
  function NextId(hs: seq<Habbit>): (id: int)
    ensures id >= 1
    ensures forall j :: 0 <= j < |hs| ==> hs[j].id < id
    ensures id == 1 || exists j :: 0 <= j < |hs| && hs[j].id == id - 1
  {
    MaxIdFromIsMaximum(0, hs);
    MaxIdFrom(0, hs) + 1
  }

  /** A habit appended with the next id keeps the ids distinct, and is the one
      a lookup of that id finds. */
  lemma AddedHabbitIsFresh(hs: seq<Habbit>, h: Habbit)
    requires h.id == NextId(hs)
    ensures IdsDistinct(hs) ==> IdsDistinct(hs + [h])
    ensures Find(hs + [h], Some(h.id)) == Some(h)
  {
    var hs' := hs + [h];
    assert forall j :: 0 <= j < |hs| ==> hs'[j] == hs[j] && !Matches(hs'[j], Some(h.id));
    assert Matches(hs'[|hs|], Some(h.id));
    assert FirstWithId(hs', Some(h.id)) == |hs|;
  }

  /** Appending habits does not change what a lookup already finds. */
  lemma FindInExtension(hs: seq<Habbit>, more: seq<Habbit>, id: Option<int>)
    ensures Find(hs, id).Some? ==> Find(hs + more, id) == Find(hs, id)
  {
    var k := FirstWithId(hs, id);
    if k < |hs| {
      var hs' := hs + more;
      assert forall i :: 0 <= i <= k ==> hs'[i] == hs[i];
      assert FirstWithId(hs', id) == k;
    }
  }

  /** `s.filter((_, i) => i != index)`: every element except the one at
      position `index`, in order. */
  function DropPosition<T>(s: seq<T>, index: int): seq<T>
    decreases |s|
  {
    if s == [] then []
    else DropPosition(s[..|s| - 1], index) + (if |s| - 1 == index then [] else [s[|s| - 1]])
  }

  /** Filtering out one position is splicing it out, or nothing when the
      position does not exist. */
  lemma {:induction false} DropPositionIsSplice<T>(s: seq<T>, index: int)
    ensures DropPosition(s, index) == if 0 <= index < |s| then s[..index] + s[index + 1..] else s
    decreases |s|
  {
    if s != [] {
      var n := |s| - 1;
      DropPositionIsSplice(s[..n], index);
      if 0 <= index < n {
        assert s[..n][..index] == s[..index];
        assert s[..n][index + 1..] + [s[n]] == s[index + 1..];
      } else if index == n {
        assert s[..n] == s[..index];
      } else {
        assert s[..n] + [s[n]] == s;
      }
    }
  }

  /** What removing a day does to one `days` sequence: in range, exactly that
      position goes and the rest close up in order; otherwise nothing changes. */
  lemma DropPositionEffect<T>(s: seq<T>, index: int)
    ensures 0 <= index < |s| ==>
      |DropPosition(s, index)| == |s| - 1 &&
      (forall k :: 0 <= k < index ==> DropPosition(s, index)[k] == s[k]) &&
      (forall k :: index <= k < |s| - 1 ==> DropPosition(s, index)[k] == s[k + 1])
    ensures !(0 <= index < |s|) ==> DropPosition(s, index) == s
  {
    DropPositionIsSplice(s, index);
  }

  /** Removing the position just appended gives back the original sequence. */
  lemma DropAppended<T>(s: seq<T>, x: T)
    ensures DropPosition(s + [x], |s|) == s
  {
    DropPositionIsSplice(s + [x], |s|);
    assert (s + [x])[..|s|] == s;
  }

  /** `addDay`'s `habbits.map(...)`: each habit the active id matches gets
      `{comment}` concatenated to a fresh copy of its days. */
  function WithDayAdded(hs: seq<Habbit>, active: Option<int>, comment: string): seq<Habbit> {
    seq(|hs|, j requires 0 <= j < |hs| =>
      if Matches(hs[j], active) then hs[j].(days := hs[j].days + [Day(comment)]) else hs[j])
  }

  /** `removeDay`'s `habbits.map(...)`: each habit the active id matches has
      position `index` filtered out of its days. */
  function WithDayRemoved(hs: seq<Habbit>, active: Option<int>, index: int): seq<Habbit> {
    seq(|hs|, j requires 0 <= j < |hs| =>
      if Matches(hs[j], active) then hs[j].(days := DropPosition(hs[j].days, index)) else hs[j])
  }

  /** Adding a day appends exactly one `{comment}` to the active habit and
      touches no other habit and no other field; without an active habit
      nothing changes. */
  lemma DayAddedEffect(hs: seq<Habbit>, active: Option<int>, comment: string)
    ensures |WithDayAdded(hs, active, comment)| == |hs|
    ensures forall j :: 0 <= j < |hs| ==>
      var (old_, new_) := (hs[j], WithDayAdded(hs, active, comment)[j]);
      new_.id == old_.id && new_.name == old_.name && new_.target == old_.target && new_.icon == old_.icon &&
      (Matches(old_, active) ==>
        |new_.days| == |old_.days| + 1 && new_.days[..|old_.days|] == old_.days &&
        new_.days[|old_.days|] == Day(comment)) &&
      (!Matches(old_, active) ==> new_ == old_)
    ensures Find(hs, active).None? ==> WithDayAdded(hs, active, comment) == hs
  {
  }

  /** Removing a day drops exactly that position from the active habit's
      days, keeps the rest in order, and touches no other habit. */
  lemma DayRemovedEffect(hs: seq<Habbit>, active: Option<int>, index: int)
    ensures |WithDayRemoved(hs, active, index)| == |hs|
    ensures forall j :: 0 <= j < |hs| ==>
      var (old_, new_) := (hs[j], WithDayRemoved(hs, active, index)[j]);
      new_.id == old_.id && new_.name == old_.name && new_.target == old_.target && new_.icon == old_.icon &&
      (Matches(old_, active) && 0 <= index < |old_.days| ==>
        new_.days == old_.days[..index] + old_.days[index + 1..]) &&
      (!Matches(old_, active) || !(0 <= index < |old_.days|) ==> new_ == old_)
  {
    var r := WithDayRemoved(hs, active, index);
    forall j | 0 <= j < |hs| ensures r[j].days == if Matches(hs[j], active) && 0 <= index < |hs[j].days| then hs[j].days[..index] + hs[j].days[index + 1..] else hs[j].days
    {
      DropPositionIsSplice(hs[j].days, index);
    }
  }

  /** Logging a day on the active habit and then removing the day at its
      last index gives back the collection unchanged. */
  lemma AddThenRemoveLast(hs: seq<Habbit>, k: nat, comment: string)
    requires IdsDistinct(hs)
    requires k < |hs|
    ensures WithDayRemoved(WithDayAdded(hs, Some(hs[k].id), comment), Some(hs[k].id), |hs[k].days|) == hs
  {
    var a := Some(hs[k].id);
    var added := WithDayAdded(hs, a, comment);
    var r := WithDayRemoved(added, a, |hs[k].days|);
    forall j | 0 <= j < |hs| ensures r[j] == hs[j] {
      if j == k {
        DropAppended(hs[k].days, Day(comment));
      }
    }
  }

  /** Both day operations keep every id in place, so the same ids are found. */
  lemma DayOperationsKeepIds(hs: seq<Habbit>, active: Option<int>, comment: string, index: int, id: Option<int>)
    ensures Find(WithDayAdded(hs, active, comment), id).None? <==> Find(hs, id).None?
    ensures Find(WithDayRemoved(hs, active, index), id).None? <==> Find(hs, id).None?
  {
    var added := WithDayAdded(hs, active, comment);
    var removed := WithDayRemoved(hs, active, index);
    assert forall j :: 0 <= j < |hs| ==> added[j].id == hs[j].id && removed[j].id == hs[j].id;
  }

  /** Id uniqueness is kept by construction: neither day operation can make
      two habits share an id. */
  lemma DayOperationsKeepIdsDistinct(hs: seq<Habbit>, active: Option<int>, comment: string, index: int)
    requires IdsDistinct(hs)
    ensures IdsDistinct(WithDayAdded(hs, active, comment))
    ensures IdsDistinct(WithDayRemoved(hs, active, index))
  {
  }
}
