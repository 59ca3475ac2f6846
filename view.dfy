/** The three page regions as plain data, and the computations that keep
    them in step with the store: menu reconciliation, the header's progress
    and the day list. */
module View {
  import opened Wrappers
  import opened Habits

  /** A menu button: the habit id it is bound to (its `menu-habbit-id`
      attribute and click handler), its icon, its alt text and whether it
      carries the active marker. */
  datatype MenuItem = MenuItem(id: int, icon: string, name: string, active: bool)

  /** One rendered day: the 1-based number shown, its comment, and the
      0-based index its delete button passes to `removeDay`. */
  datatype DayRow = DayRow(dayNumber: nat, comment: string, deleteIndex: nat)

  /* ---------- menu ---------- */

  /** `document.querySelector('[menu-habbit-id="id"]')`: the position of the
      first entry bound to `id`, or `|menu|` when there is none. */
  function FirstEntry(menu: seq<MenuItem>, id: int): (k: nat)
    ensures k <= |menu|
    ensures forall i :: 0 <= i < k ==> menu[i].id != id
    ensures k < |menu| ==> menu[k].id == id
  {
    if menu == [] then 0
    else if menu[0].id == id then 0
    else 1 + FirstEntry(menu[1..], id)
  }

  /** One iteration of `rerenderMenu`'s loop: create a button for a habit
      that has none (active if it is the active habit), otherwise set or
      clear the marker of its existing button. */
  function ReconcileStep(menu: seq<MenuItem>, h: Habbit, activeId: int): seq<MenuItem> {
    var k := FirstEntry(menu, h.id);
    if k == |menu| then menu + [MenuItem(h.id, h.icon, h.name, h.id == activeId)]
    else menu[k := menu[k].(active := h.id == activeId)]
  }

  /** The menu after `rerenderMenu` has visited every habit of `hs` in order. */
  function Reconciled(menu: seq<MenuItem>, hs: seq<Habbit>, activeId: int): seq<MenuItem>
    decreases |hs|
  {
    if hs == [] then menu
    else ReconcileStep(Reconciled(menu, hs[..|hs| - 1], activeId), hs[|hs| - 1], activeId)
  }

  function MenuIds(menu: seq<MenuItem>): set<int> {
    set k | 0 <= k < |menu| :: menu[k].id
  }

  function HabbitIds(hs: seq<Habbit>): set<int> {
    set j | 0 <= j < |hs| :: hs[j].id
  }

  /** At most one button per habit id. */
  predicate MenuDistinct(menu: seq<MenuItem>) {
    forall i, j :: 0 <= i < j < |menu| ==> menu[i].id != menu[j].id
  }

  /** The menu a page with no buttons gets: one button per habit, in order. */
  function FreshMenu(hs: seq<Habbit>, activeId: int): seq<MenuItem> {
    seq(|hs|, j requires 0 <= j < |hs| => MenuItem(hs[j].id, hs[j].icon, hs[j].name, hs[j].id == activeId))
  }

  lemma HabbitIdsOfPrefix(hs: seq<Habbit>)
    requires hs != []
    ensures HabbitIds(hs) == HabbitIds(hs[..|hs| - 1]) + {hs[|hs| - 1].id}
  {
    var init := hs[..|hs| - 1];
    assert forall j :: 0 <= j < |init| ==> init[j] == hs[j];
  }

  /** One step only appends or flips a marker. */
  lemma StepKeepsEntries(menu: seq<MenuItem>, h: Habbit, a: int)
    ensures var r := ReconcileStep(menu, h, a);
      |menu| <= |r| <= |menu| + 1 &&
      (forall k :: 0 <= k < |menu| ==> r[k].id == menu[k].id && r[k].icon == menu[k].icon && r[k].name == menu[k].name) &&
      MenuIds(r) == MenuIds(menu) + {h.id} &&
      (h.id in MenuIds(menu) ==> |r| == |menu|) &&
      (MenuDistinct(menu) ==> MenuDistinct(r))
  {
    var r := ReconcileStep(menu, h, a);
    var k := FirstEntry(menu, h.id);
    if k == |menu| {
      assert forall i :: 0 <= i < |menu| ==> r[i] == menu[i];
      assert r[|menu|].id == h.id;
      assert h.id !in MenuIds(menu);
    } else {
      assert forall i :: 0 <= i < |menu| ==> r[i].id == menu[i].id;
      assert menu[k].id == h.id;
    }
  }

  /** Reconciliation never removes, reorders or rewrites an existing button:
      the old menu is a prefix of the new one up to the active markers. */
  lemma {:induction false} ReconciledKeepsEntries(menu: seq<MenuItem>, hs: seq<Habbit>, a: int)
    ensures |menu| <= |Reconciled(menu, hs, a)|
    ensures forall k :: 0 <= k < |menu| ==>
      var e := Reconciled(menu, hs, a)[k];
      e.id == menu[k].id && e.icon == menu[k].icon && e.name == menu[k].name
    decreases |hs|
  {
    if hs != [] {
      var prev := Reconciled(menu, hs[..|hs| - 1], a);
      ReconciledKeepsEntries(menu, hs[..|hs| - 1], a);
      StepKeepsEntries(prev, hs[|hs| - 1], a);
    }
  }

  /** After reconciliation every habit id has a button, and the only ids are
      those the menu had and those of the habits. */
  lemma {:induction false} ReconciledIds(menu: seq<MenuItem>, hs: seq<Habbit>, a: int)
    ensures MenuIds(Reconciled(menu, hs, a)) == MenuIds(menu) + HabbitIds(hs)
    decreases |hs|
  {
    if hs != [] {
      var prev := Reconciled(menu, hs[..|hs| - 1], a);
      ReconciledIds(menu, hs[..|hs| - 1], a);
      StepKeepsEntries(prev, hs[|hs| - 1], a);
      HabbitIdsOfPrefix(hs);
    }
  }

  /** A menu holding at most one button per id keeps that property, so after
      reconciliation each habit id has exactly one button. */
  lemma {:induction false} ReconciledDistinct(menu: seq<MenuItem>, hs: seq<Habbit>, a: int)
    requires MenuDistinct(menu)
    ensures MenuDistinct(Reconciled(menu, hs, a))
    decreases |hs|
  {
    if hs != [] {
      var prev := Reconciled(menu, hs[..|hs| - 1], a);
      ReconciledDistinct(menu, hs[..|hs| - 1], a);
      StepKeepsEntries(prev, hs[|hs| - 1], a);
    }
  }

  /** When every habit already has a button, reconciliation adds none. */
  lemma {:induction false} ReconciledAddsNothing(menu: seq<MenuItem>, hs: seq<Habbit>, a: int)
    requires HabbitIds(hs) <= MenuIds(menu)
    ensures |Reconciled(menu, hs, a)| == |menu|
    decreases |hs|
  {
    if hs != [] {
      var init := hs[..|hs| - 1];
      var prev := Reconciled(menu, init, a);
      HabbitIdsOfPrefix(hs);
      ReconciledAddsNothing(menu, init, a);
      ReconciledIds(menu, init, a);
      StepKeepsEntries(prev, hs[|hs| - 1], a);
    }
  }

  /** With one button per id, the active marker ends up set on exactly the
      button of the active habit among the habits' buttons; a button of an id
      no habit has is left as it was. */
  lemma {:induction false} ReconciledMarkers(menu: seq<MenuItem>, hs: seq<Habbit>, a: int)
    requires MenuDistinct(menu)
    ensures forall k :: 0 <= k < |Reconciled(menu, hs, a)| && Reconciled(menu, hs, a)[k].id in HabbitIds(hs) ==>
      Reconciled(menu, hs, a)[k].active == (Reconciled(menu, hs, a)[k].id == a)
    ensures forall k :: 0 <= k < |Reconciled(menu, hs, a)| && Reconciled(menu, hs, a)[k].id !in HabbitIds(hs) ==>
      k < |menu| && Reconciled(menu, hs, a)[k] == menu[k]
    decreases |hs|
  {
    if hs != [] {
      var init := hs[..|hs| - 1];
      var h := hs[|hs| - 1];
      var prev := Reconciled(menu, init, a);
      var r := ReconcileStep(prev, h, a);
      ReconciledMarkers(menu, init, a);
      ReconciledDistinct(menu, init, a);
      StepKeepsEntries(prev, h, a);
      HabbitIdsOfPrefix(hs);
      var f := FirstEntry(prev, h.id);
      forall k | 0 <= k < |r|
        ensures r[k].id in HabbitIds(hs) ==> r[k].active == (r[k].id == a)
        ensures r[k].id !in HabbitIds(hs) ==> k < |menu| && r[k] == menu[k]
      {
        if k == f {
          assert r[k].id == h.id && r[k].active == (h.id == a);
          assert h.id in HabbitIds(hs);
        } else {
          assert k < |prev| && r[k] == prev[k];
          if r[k].id == h.id {
            assert false;
          }
          assert r[k].id in HabbitIds(hs) <==> r[k].id in HabbitIds(init);
          if r[k].id !in HabbitIds(hs) {
            assert prev[k].id !in HabbitIds(init);
            assert k < |menu|;
          }
        }
      }
    }
  }

  /** A menu is settled for `hs` when it has one button per id, a button for
      every habit, and the right marker on each habit's button. */
  predicate Settled(menu: seq<MenuItem>, hs: seq<Habbit>, a: int) {
    MenuDistinct(menu) && HabbitIds(hs) <= MenuIds(menu) &&
    forall k :: 0 <= k < |menu| && menu[k].id in HabbitIds(hs) ==> menu[k].active == (menu[k].id == a)
  }

  /** Reconciling a settled menu changes nothing. */
  lemma {:induction false} SettledIsFixed(menu: seq<MenuItem>, hs: seq<Habbit>, a: int)
    requires Settled(menu, hs, a)
    ensures Reconciled(menu, hs, a) == menu
    decreases |hs|
  {
    if hs != [] {
      var init := hs[..|hs| - 1];
      var h := hs[|hs| - 1];
      HabbitIdsOfPrefix(hs);
      assert Settled(menu, init, a);
      SettledIsFixed(menu, init, a);
      var f := FirstEntry(menu, h.id);
      assert h.id in MenuIds(menu);
      assert menu[f].id == h.id && menu[f].active == (h.id == a);
      assert menu[f := menu[f].(active := h.id == a)] == menu;
    }
  }

  /** Re-running reconciliation on unchanged state is idempotent. */
  lemma ReconciledIdempotent(menu: seq<MenuItem>, hs: seq<Habbit>, a: int)
    requires MenuDistinct(menu)
    ensures Reconciled(Reconciled(menu, hs, a), hs, a) == Reconciled(menu, hs, a)
  {
    var r := Reconciled(menu, hs, a);
    ReconciledDistinct(menu, hs, a);
    ReconciledIds(menu, hs, a);
    ReconciledMarkers(menu, hs, a);
    SettledIsFixed(r, hs, a);
  }

  /** On a page with no buttons, reconciliation creates one button per
      habit, in the habits' order, with the marker on the active one. */
  lemma {:induction false} ReconciledFromEmpty(hs: seq<Habbit>, a: int)
    requires IdsDistinct(hs)
    ensures Reconciled([], hs, a) == FreshMenu(hs, a)
    decreases |hs|
  {
    if hs != [] {
      var init := hs[..|hs| - 1];
      var h := hs[|hs| - 1];
      ReconciledFromEmpty(init, a);
      var prev := FreshMenu(init, a);
      assert forall j :: 0 <= j < |prev| ==> prev[j].id == hs[j].id && hs[j].id != h.id;
      assert FirstEntry(prev, h.id) == |prev|;
      assert prev + [MenuItem(h.id, h.icon, h.name, h.id == a)] == FreshMenu(hs, a);
    }
  }

  /** The menu rendered for `hs` and then re-rendered after one more habit
      was appended and made active is the menu rendered from scratch. */
  lemma ReconciledAfterAppend(hs: seq<Habbit>, h: Habbit, b: int, a: int)
    requires IdsDistinct(hs + [h])
    ensures Reconciled(FreshMenu(hs, b), hs + [h], a) == FreshMenu(hs + [h], a)
  {
    var hs' := hs + [h];
    var m := FreshMenu(hs, b);
    assert hs'[..|hs'| - 1] == hs;
    assert MenuDistinct(m);
    assert MenuIds(m) == HabbitIds(hs) by {
      assert forall j :: 0 <= j < |hs| ==> m[j].id == hs[j].id;
    }
    var prev := Reconciled(m, hs, a);
    ReconciledAddsNothing(m, hs, a);
    ReconciledKeepsEntries(m, hs, a);
    ReconciledMarkers(m, hs, a);
    assert prev == FreshMenu(hs, a) by {
      forall k | 0 <= k < |hs| ensures prev[k] == FreshMenu(hs, a)[k] {
        assert prev[k].id == hs[k].id;
        assert hs[k].id in HabbitIds(hs);
      }
    }
    ReconciledFromEmpty(hs', a);
    assert Reconciled([], hs', a) == ReconcileStep(Reconciled([], hs, a), h, a);
    assert hs == hs'[..|hs|];
    ReconciledFromEmpty(hs, a);
  }

  /* ---------- header ---------- */

  predicate IsDigits(s: string) {
    |s| > 0 && forall i :: 0 <= i < |s| ==> '0' <= s[i] <= '9'
  }

  function DigitsValue(s: string): nat
    requires forall i :: 0 <= i < |s| ==> '0' <= s[i] <= '9'
    decreases |s|
  {
    if s == [] then 0 else 10 * DigitsValue(s[..|s| - 1]) + (s[|s| - 1] as int - '0' as int)
  }

  /** The number JavaScript's division coerces `target` to, for a target made
      of decimal digits; `None` for any other text. */
  function TargetValue(target: string): Option<nat> {
    if IsDigits(target) then Some(DigitsValue(target)) else None
  }

  /** The progress expression: `days / target > 1 ? 100 : days / target * 100`,
      in exact arithmetic. */
  function Progress(done: nat, target: nat): (p: real)
    requires target > 0
    ensures 0.0 <= p <= 100.0
    ensures p == 100.0 <==> done >= target
    ensures done <= target ==> p * target as real == 100.0 * done as real
  {
    var ratio := done as real / target as real;
    RatioFacts(done as real, target as real);
    if ratio > 1.0 then 100.0 else ratio * 100.0
  }

  lemma RatioFacts(d: real, t: real)
    requires d >= 0.0 && t > 0.0
    ensures (d / t) * t == d
    ensures 0.0 <= d / t
    ensures d / t > 1.0 <==> d > t
    ensures d / t == 1.0 <==> d == t
  {
    var r := d / t;
    assert r * t == d;
    Monotone(1.0, r, t);
    Monotone(r, 1.0, t);
  }

  /** `progress.toFixed(0)`: the progress rounded to the nearest integer,
      halves rounded up. */
  function RoundedPercent(done: nat, target: nat): (r: nat)
    requires target > 0
    ensures r <= 100
    ensures r as real - 0.5 <= Progress(done, target) < r as real + 0.5
  {
    if done > target then 100
    else
      var q := (200 * done + target) / (2 * target);
      RoundingBounds(done, target, q);
      q
  }

  lemma RoundingBounds(done: nat, target: nat, q: int)
    requires 0 < target && done <= target
    requires q == (200 * done + target) / (2 * target)
    ensures 0 <= q <= 100
    ensures q as real - 0.5 <= Progress(done, target) < q as real + 0.5
  {
    var t := 2 * target;
    var n := 200 * done + target;
    DivisionBounds(n, t, q);
    var p := Progress(done, target);
    HalfBounds(q as real, p, done as real, target as real);
    assert q as real < 100.5;
  }

  /** Euclidean division: `q * t <= n < (q + 1) * t`, as real numbers. */
  lemma DivisionBounds(n: nat, t: int, q: int)
    requires t > 0 && q == n / t
    ensures q >= 0
    ensures (q as real) * (t as real) <= n as real < (q as real + 1.0) * (t as real)
  {
    assert q * t <= n < (q + 1) * t;
    assert (q * t) as real == (q as real) * (t as real);
    assert ((q + 1) * t) as real == (q as real + 1.0) * (t as real);
  }

  /** From `x * 2t <= 200 d + t < (x + 1) * 2t` and `p * t == 100 d`:
      `x - 1/2 <= p < x + 1/2`. */
  lemma HalfBounds(x: real, p: real, d: real, t: real)
    requires t > 0.0
    requires p * t == 100.0 * d
    requires x * (2.0 * t) <= 200.0 * d + t < (x + 1.0) * (2.0 * t)
    ensures x - 0.5 <= p < x + 0.5
  {
    assert x * (2.0 * t) == 2.0 * (x * t);
    assert (x + 1.0) * (2.0 * t) == 2.0 * (x * t) + 2.0 * t;
    assert (x - 0.5) * t == x * t - 0.5 * t;
    assert (x + 0.5) * t == x * t + 0.5 * t;
    Monotone(p, x - 0.5, t);
    Monotone(x + 0.5, p, t);
  }

  /** Multiplying by a positive factor keeps the order, strictly and not. */
  lemma Monotone(x: real, y: real, c: real)
    requires c > 0.0
    ensures x <= y ==> x * c <= y * c
    ensures x < y ==> x * c < y * c
  {
    assert y * c - x * c == (y - x) * c;
  }

  /** What the header shows as percentage and bar width, or `None` when the
      target is not a positive whole number. */
  function HeadProgress(h: Habbit): (r: Option<nat>)
    ensures r.Some? <==> TargetValue(h.target).Some? && TargetValue(h.target).value > 0
    ensures r.Some? ==> r.value <= 100
    ensures r.Some? ==>
      r.value as real - 0.5 <= Progress(|h.days|, TargetValue(h.target).value) < r.value as real + 0.5
  {
    match TargetValue(h.target)
    case Some(t) => if t > 0 then Some(RoundedPercent(|h.days|, t)) else None
    case None => None
  }

  /* ---------- day list ---------- */

  /** The day list rebuilt from a habit's days, in index order. */
  function DayRows(days: seq<Day>): seq<DayRow> {
    seq(|days|, k requires 0 <= k < |days| => DayRow(k + 1, days[k].comment, k))
  }

  /** Row `k` shows day number `k + 1`, and its delete button removes exactly
      day `k`: what remains is every other day, in order. */
  lemma DeleteButtonRemovesItsDay(days: seq<Day>, k: nat)
    requires k < |days|
    ensures DayRows(days)[k].dayNumber == k + 1
    ensures DayRows(days)[k].comment == days[k].comment
    ensures DropPosition(days, DayRows(days)[k].deleteIndex) == days[..k] + days[k + 1..]
    ensures |DayRows(DropPosition(days, DayRows(days)[k].deleteIndex))| == |days| - 1
  {
    DropPositionIsSplice(days, k);
  }

  /** Logging a day adds one row at the bottom and leaves the others as they were. */
  lemma DayRowsAfterAdd(days: seq<Day>, comment: string)
    ensures DayRows(days + [Day(comment)]) == DayRows(days) + [DayRow(|days| + 1, comment, |days|)]
  {
  }
}
