/** The running page: the application state (the `habbits` and
    `globalActiveHabbitId` globals and the stored copy), the page regions it
    renders into, and the handlers that change them. */
module Tracker {
  import opened Wrappers
  import opened Habits
  import opened Forms
  import opened View

  /** The value `JSON.parse` gives for the stored string: an array of habits,
      or anything else (`null` when nothing is stored, an object, a number). */
  datatype Stored = JsonArray(items: seq<Habbit>) | JsonOther

  /** The page regions the renderer writes, with the DOM replaced by data. */
  class Page {
    /** The buttons under `.menu__list`, in document order. */
    var menu: seq<MenuItem>
    /** The text of `.h1`. */
    var title: string
    /** The number shown in `.progress__percent` and used as the width of
        `.progress__cover-bar`. */
    var progress: Option<nat>
    /** The children of `.days-list`. */
    var daysList: seq<DayRow>
    /** The number in the "next day" label `.habbit__day`. */
    var nextDayNumber: nat
    /** The form fields that carry the `error` class. */
    var errorFields: set<string>

    /** The markup as loaded: no buttons, no days, no flagged fields. */
    constructor ()
      ensures menu == [] && daysList == [] && errorFields == {}
    {
      menu := [];
      title := "";
      progress := None;
      daysList := [];
      nextDayNumber := 1;
      errorFields := {};
    }

    /** The header and the day list show habit `h`. */
    ghost predicate Shows(h: Habbit)
      reads this
    {
      title == h.name && progress == HeadProgress(h) &&
      daysList == DayRows(h.days) && nextDayNumber == |h.days| + 1
    }
  }

  class App {
    var habbits: seq<Habbit>
    var activeHabbitId: Option<int>
    /** What `localStorage` holds under `HABBIT_KEY`, already parsed. */
    var storage: Stored
    const page: Page

    /** The selection, once made, names an existing habit, and the menu
        holds at most one button per habit id. */
    ghost predicate Valid()
      reads this, page
    {
      (activeHabbitId.Some? ==> Find(habbits, activeHabbitId).Some?) &&
      MenuDistinct(page.menu)
    }

    /** The start-up block: load the stored habits and select the first one.
        With no habits nothing is selected or rendered. */
    constructor (stored: Stored)
      ensures Valid() && fresh(page)
      ensures storage == stored
      ensures habbits == if stored.JsonArray? then stored.items else []
      ensures activeHabbitId == if habbits == [] then None else Some(habbits[0].id)
      ensures habbits != [] ==> page.menu == Reconciled([], habbits, habbits[0].id) && page.Shows(habbits[0])
      ensures habbits == [] ==> page.menu == [] && page.daysList == []
    {
      habbits := [];
      activeHabbitId := None;
      storage := stored;
      page := new Page();
      new;
      LoadData();
      if habbits != [] {
        assert FirstWithId(habbits, Some(habbits[0].id)) == 0;
        RerenderGlobal(Some(habbits[0].id));
      }
    }

    /** `loadData`: adopt the stored value only when it is an array. It runs
        only at start-up, before anything is selected. */
    method LoadData()
      requires activeHabbitId.None? && MenuDistinct(page.menu)
      modifies this`habbits
      ensures Valid()
      ensures storage.JsonArray? ==> habbits == storage.items
      ensures !storage.JsonArray? ==> habbits == old(habbits)
    {
      if storage.JsonArray? {
        habbits := storage.items;
      }
    }

    /** `saveData`: the stored value becomes the whole collection. */
    method SaveData()
      modifies this`storage
      ensures storage == JsonArray(habbits)
    {
      storage := JsonArray(habbits);
    }

    /** `rerenderMenu`: visit the habits in order, creating a button for each
        one that has none and otherwise setting or clearing its marker. */
    method RerenderMenu(active: Habbit)
      modifies page`menu
      ensures page.menu == Reconciled(old(page.menu), habbits, active.id)
    {
      ghost var menu0 := page.menu;
      for i := 0 to |habbits|
        invariant page.menu == Reconciled(menu0, habbits[..i], active.id)
      {
        var h := habbits[i];
        var existed := FirstEntry(page.menu, h.id);
        if existed == |page.menu| {
          page.menu := page.menu + [MenuItem(h.id, h.icon, h.name, active.id == h.id)];
        } else {
          page.menu := page.menu[existed := page.menu[existed].(active := active.id == h.id)];
        }
        assert habbits[..i + 1][..i] == habbits[..i];
      }
      assert habbits[..|habbits|] == habbits;
    }

    /** `rerenderHead`: the habit's name and its rounded progress. */
    method RerenderHead(active: Habbit)
      modifies page`title, page`progress
      ensures page.title == active.name && page.progress == HeadProgress(active)
    {
      page.title := active.name;
      page.progress := HeadProgress(active);
    }

    /** `rerenderDays`: clear the list, append one row per day in index
        order, and label the next day. */
    method RerenderDays(active: Habbit)
      modifies page`daysList, page`nextDayNumber
      ensures page.daysList == DayRows(active.days)
      ensures page.nextDayNumber == |active.days| + 1
    {
      page.daysList := [];
      for index := 0 to |active.days|
        invariant page.daysList == DayRows(active.days)[..index]
      {
        var day := index + 1;
        page.daysList := page.daysList + [DayRow(day, active.days[index].comment, index)];
        assert DayRows(active.days)[..index + 1] == DayRows(active.days)[..index] + [DayRows(active.days)[index]];
      }
      page.nextDayNumber := |active.days| + 1;
    }

    /** `rerenderGlobal`: an id no habit has changes nothing; otherwise it
        becomes the selection and all three regions show that habit. */
    method RerenderGlobal(id: Option<int>)
      requires Valid()
      modifies this`activeHabbitId, page`menu, page`title, page`progress, page`daysList, page`nextDayNumber
      ensures Valid()
      ensures Find(habbits, id).None? ==>
        activeHabbitId == old(activeHabbitId) && unchanged(page)
      ensures Find(habbits, id).Some? ==>
        activeHabbitId == id &&
        page.menu == Reconciled(old(page.menu), habbits, Find(habbits, id).value.id) &&
        page.Shows(Find(habbits, id).value)
    {
      var activeHabbit := Find(habbits, id);
      if activeHabbit.None? {
        return;
      }
      var h := activeHabbit.value;
      activeHabbitId := id;
      RerenderMenu(h);
      ReconciledDistinct(old(page.menu), habbits, h.id);
      RerenderHead(h);
      RerenderDays(h);
    }

    /** `addDay`: validate the comment; on success append it to the
        selected habit, save, and re-render. */
    method AddDay(form: FormData)
      requires Valid()
      modifies this, page
      ensures Valid()
      ensures page.errorFields == (old(page.errorFields) - {"comment"}) + (if Filled(form, "comment") then {} else {"comment"})
      ensures activeHabbitId == old(activeHabbitId)
      ensures !Filled(form, "comment") ==>
        habbits == old(habbits) && storage == old(storage)
      ensures !Filled(form, "comment") || activeHabbitId.None? ==>
        page.menu == old(page.menu) && page.title == old(page.title) && page.progress == old(page.progress) &&
        page.daysList == old(page.daysList) && page.nextDayNumber == old(page.nextDayNumber)
      ensures Filled(form, "comment") ==>
        habbits == WithDayAdded(old(habbits), activeHabbitId, form["comment"]) &&
        storage == JsonArray(habbits)
      ensures Filled(form, "comment") && activeHabbitId.Some? ==>
        page.menu == Reconciled(old(page.menu), habbits, activeHabbitId.value) &&
        page.Shows(Find(habbits, activeHabbitId).value)
    {
      var data, errors := ValidateAndGetFormData(form, ["comment"], page.errorFields);
      page.errorFields := errors;
      if data.None? {
        return;
      }
      DayOperationsKeepIds(habbits, activeHabbitId, data.value["comment"], 0, activeHabbitId);
      habbits := WithDayAdded(habbits, activeHabbitId, data.value["comment"]);
      SaveData();
      RerenderGlobal(activeHabbitId);
    }

    /** `removeDay`: filter day `index` out of the selected habit, save,
        and re-render. */
    method RemoveDay(index: int)
      requires Valid()
      modifies this, page
      ensures Valid()
      ensures activeHabbitId == old(activeHabbitId) && page.errorFields == old(page.errorFields)
      ensures habbits == WithDayRemoved(old(habbits), activeHabbitId, index)
      ensures storage == JsonArray(habbits)
      ensures activeHabbitId.None? ==>
        page.menu == old(page.menu) && page.title == old(page.title) && page.progress == old(page.progress) &&
        page.daysList == old(page.daysList) && page.nextDayNumber == old(page.nextDayNumber)
      ensures activeHabbitId.Some? ==>
        page.menu == Reconciled(old(page.menu), habbits, activeHabbitId.value) &&
        page.Shows(Find(habbits, activeHabbitId).value)
    {
      DayOperationsKeepIds(habbits, activeHabbitId, "", index, activeHabbitId);
      habbits := WithDayRemoved(habbits, activeHabbitId, index);
      SaveData();
      RerenderGlobal(activeHabbitId);
    }

    /** `addHabbit`: validate name, icon and target; on success append a
        habit with the next id and no days, save, and select it. */
    method AddHabbit(form: FormData)
      requires Valid()
      modifies this, page
      ensures Valid()
      ensures var fields := {"name", "icon", "target"};
        page.errorFields == (old(page.errorFields) - fields) + (set f | f in fields && !Filled(form, f))
      ensures !(Filled(form, "name") && Filled(form, "icon") && Filled(form, "target")) ==>
        habbits == old(habbits) && activeHabbitId == old(activeHabbitId) && storage == old(storage) &&
        page.menu == old(page.menu) && page.title == old(page.title) && page.progress == old(page.progress) &&
        page.daysList == old(page.daysList) && page.nextDayNumber == old(page.nextDayNumber)
      ensures Filled(form, "name") && Filled(form, "icon") && Filled(form, "target") ==>
        var h := Habbit(NextId(old(habbits)), form["name"], form["target"], form["icon"], []);
        habbits == old(habbits) + [h] &&
        (IdsDistinct(old(habbits)) ==> IdsDistinct(habbits)) &&
        storage == JsonArray(habbits) &&
        activeHabbitId == Some(h.id) &&
        page.menu == Reconciled(old(page.menu), habbits, h.id) &&
        page.Shows(h)
    {
      ghost var fields := ["name", "icon", "target"];
      var data, errors := ValidateAndGetFormData(form, ["name", "icon", "target"], page.errorFields);
      assert (set f | f in fields) == {"name", "icon", "target"};
      assert data.None? <==> !(Filled(form, fields[0]) && Filled(form, fields[1]) && Filled(form, fields[2]));
      page.errorFields := errors;
      if data.None? {
        return;
      }
      assert data.value["name"] == form["name"] && data.value["icon"] == form["icon"] && data.value["target"] == form["target"];
      PushHabbit(data.value["name"], data.value["target"], data.value["icon"]);
    }

    /** The part of `addHabbit` after validation: the `reduce` for the
        largest id, the `push`, the save and the selection of the new id. */
    method PushHabbit(name: string, target: string, icon: string)
      requires Valid()
      modifies this, page`menu, page`title, page`progress, page`daysList, page`nextDayNumber
      ensures Valid()
      ensures var h := Habbit(NextId(old(habbits)), name, target, icon, []);
        habbits == old(habbits) + [h] &&
        (IdsDistinct(old(habbits)) ==> IdsDistinct(habbits)) &&
        storage == JsonArray(habbits) &&
        activeHabbitId == Some(h.id) &&
        page.menu == Reconciled(old(page.menu), habbits, h.id) &&
        page.Shows(h)
    {
      var maxId := MaxIdFrom(0, habbits);
      var h := Habbit(maxId + 1, name, target, icon, []);
      AddedHabbitIsFresh(habbits, h);
      FindInExtension(habbits, [h], activeHabbitId);
      habbits := habbits + [h];
      SaveData();
      RerenderGlobal(Some(maxId + 1));
    }
  }

  /** A session on an empty store: create "Run" with target 30, log "5km"
      (the header shows 3 %), then delete that day again. */
  method RunScenario() {
    var app := ScenarioCreate();
    ScenarioLog(app);
    ScenarioRemove(app);
  }

  /** From an empty store, the first habit gets id 1 and is selected. */
  method ScenarioCreate() returns (app: App)
    ensures fresh(app) && fresh(app.page) && app.Valid()
    ensures app.habbits == [Habbit(1, "Run", "30", "run", [])] && app.activeHabbitId == Some(1)
  {
    app := new App(JsonOther);
    assert app.habbits == [];
    var form := map["name" := "Run", "target" := "30", "icon" := "run"];
    assert Filled(form, "name") && Filled(form, "icon") && Filled(form, "target");
    app.AddHabbit(form);
    assert app.page.menu == [MenuItem(1, "run", "Run", true)];
  }

  /** Logging one day on a 30-day target shows 3 %. */
  method ScenarioLog(app: App)
    requires app.Valid() && app.habbits == [Habbit(1, "Run", "30", "run", [])] && app.activeHabbitId == Some(1)
    modifies app, app.page
    ensures app.Valid() && app.activeHabbitId == Some(1)
    ensures app.habbits == [Habbit(1, "Run", "30", "run", [Day("5km")])]
  {
    var run := Habbit(1, "Run", "30", "run", []);
    var form := map["comment" := "5km"];
    assert Filled(form, "comment");
    app.AddDay(form);
    var logged := run.(days := [Day("5km")]);
    assert WithDayAdded([run], Some(1), "5km")[0] == logged;
    assert app.habbits == [logged];
    assert Find(app.habbits, Some(1)) == Some(logged);
    assert DigitsValue("30") == 30 by {
      assert "30"[..1] == "3";
      assert DigitsValue("3") == 3 by { assert "3"[..0] == ""; }
    }
    assert app.page.progress == Some(3);
    assert app.page.daysList == [DayRow(1, "5km", 0)] && app.page.nextDayNumber == 2;
  }

  /** Deleting day 0 again leaves the habit with no days. */
  method ScenarioRemove(app: App)
    requires app.Valid() && app.activeHabbitId == Some(1)
    requires app.habbits == [Habbit(1, "Run", "30", "run", [Day("5km")])]
    modifies app, app.page
  {
    var run := Habbit(1, "Run", "30", "run", []);
    var logged := run.(days := [Day("5km")]);
    app.RemoveDay(0);
    assert DropPosition(logged.days, 0) == [];
    assert WithDayRemoved([logged], Some(1), 0)[0] == run;
    assert app.habbits == [run];
    assert app.page.daysList == [] && app.page.nextDayNumber == 1;
  }
}
