/**
 * The calculator window's own logic: the table of method indicator buttons, switching them on
 * and off, and the handler that runs when a line is submitted (rewrite, evaluate, solve,
 * show). Widgets, layout boxes and typesetting are not modelled: a panel records what it was
 * last told to show.
 */
module Setup {
  import opened Wrappers
  import opened InputRewrite
  import CalculateOde

  /** (label, key) of each indicator button, in the order the buttons are created. */
  const Methods: seq<(string, string)> := [
    ("Separable", "separable"),
    ("Homogeneous", "homogeneous"),
    ("Exact", "exact"),
    ("Linear", "linear"),
    ("Bernoulli", "Bernoulli"),
    ("n-th Homog", "homogeneous"),
    ("n-th Non\U{2011}homog", "non-homogeneous"),
    ("Var of Params", "variation of parameters")
  ]

  const ParseFailureNotice: string := "\U{274C} Parse error \U{2014} no solution"
  const UnsolvedNotice: string := "\U{274C} Could not solve."

  /** The key -> label table built by inserting the entries one after another. */
  function KeyTable(entries: seq<(string, string)>): map<string, string>
  {
    if entries == [] then map[]
    else KeyTable(entries[..|entries| - 1])[entries[|entries| - 1].1 := entries[|entries| - 1].0]
  }

  /** A key is registered iff some entry carries it. */
  lemma {:induction false} KeyTableKeys(entries: seq<(string, string)>, k: string)
    ensures k in KeyTable(entries) <==> exists i :: 0 <= i < |entries| && entries[i].1 == k
  {
    if entries != [] {
      var init := entries[..|entries| - 1];
      KeyTableKeys(init, k);
      if exists i :: 0 <= i < |init| && init[i].1 == k {
        var i :| 0 <= i < |init| && init[i].1 == k;
        assert entries[i] == init[i];
      }
      if exists i :: 0 <= i < |entries| && entries[i].1 == k {
        var i :| 0 <= i < |entries| && entries[i].1 == k;
        if i < |init| {
          assert init[i] == entries[i];
        }
      }
    }
  }

  /** A registered key carries the label of the LAST entry with that key. */
  lemma {:induction false} KeyTableLastWins(entries: seq<(string, string)>, k: string)
    requires k in KeyTable(entries)
    ensures exists i ::
      && 0 <= i < |entries| && entries[i].1 == k && KeyTable(entries)[k] == entries[i].0
      && forall j :: i < j < |entries| ==> entries[j].1 != k
  {
    var n := |entries| - 1;
    var init := entries[..n];
    if entries[n].1 == k {
      assert KeyTable(entries)[k] == entries[n].0;
    } else {
      KeyTableLastWins(init, k);
      var i :| 0 <= i < |init| && init[i].1 == k && KeyTable(init)[k] == init[i].0
        && forall j :: i < j < |init| ==> init[j].1 != k;
      assert entries[i] == init[i];
      forall j | i < j < |entries|
        ensures entries[j].1 != k
      {
        if j < n {
          assert entries[j] == init[j];
        }
      }
    }
  }

  /** The table after the first four buttons. */
  lemma MethodTableFirstHalf()
    ensures KeyTable(Methods[..4]) ==
      map["separable" := "Separable"]["homogeneous" := "Homogeneous"]["exact" := "Exact"]["linear" := "Linear"]
  {
    assert Methods[..0] == [];
    KeyTableStep(Methods, 0);
    KeyTableStep(Methods, 1);
    KeyTableStep(Methods, 2);
    KeyTableStep(Methods, 3);
  }

  /** The table after all eight: the second "homogeneous" entry overwrites the first. */
  lemma MethodTableBuilt()
    ensures KeyTable(Methods) ==
      map["separable" := "Separable"]["homogeneous" := "Homogeneous"]["exact" := "Exact"]["linear" := "Linear"]
        ["Bernoulli" := "Bernoulli"]["homogeneous" := "n-th Homog"]["non-homogeneous" := "n-th Non\U{2011}homog"]
        ["variation of parameters" := "Var of Params"]
  {
    MethodTableFirstHalf();
    KeyTableStep(Methods, 4);
    KeyTableStep(Methods, 5);
    KeyTableStep(Methods, 6);
    KeyTableStep(Methods, 7);
    assert Methods[..8] == Methods;
  }

  /** The button table: seven keys, because "homogeneous" is registered twice and the
      "n-th Homog" button replaces the "Homogeneous" one under that key. */
  lemma MethodTableShape()
    ensures KeyTable(Methods) == map[
      "separable" := "Separable",
      "homogeneous" := "n-th Homog",
      "exact" := "Exact",
      "linear" := "Linear",
      "Bernoulli" := "Bernoulli",
      "non-homogeneous" := "n-th Non\U{2011}homog",
      "variation of parameters" := "Var of Params"]
    ensures "Homogeneous" !in KeyTable(Methods).Values
  {
    MethodTableBuilt();
  }

  /** The "Homogeneous" button's label survives under no key: its key was taken over. */
  lemma HomogeneousOrphaned()
    ensures Methods[1].0 == "Homogeneous" && Methods[1].1 in KeyTable(Methods)
    ensures Methods[1].0 !in KeyTable(Methods).Values
  {
    MethodTableShape();
  }

  /** Inserting one more entry. */
  lemma KeyTableStep(entries: seq<(string, string)>, n: nat)
    requires n < |entries|
    ensures KeyTable(entries[..n + 1]) == KeyTable(entries[..n])[entries[n].1 := entries[n].0]
  {
    assert entries[..n + 1][..n] == entries[..n];
  }

  /** The keys of `entries` in the order a dict filled entry by entry yields them: each key
      once, at the place of its first insertion. */
  function KeyList(entries: seq<(string, string)>): (keys: seq<string>)
    ensures forall p, q :: 0 <= p < q < |keys| ==> keys[p] != keys[q]
  {
    if entries == [] then []
    else
      var keys := KeyList(entries[..|entries| - 1]);
      var k := entries[|entries| - 1].1;
      if k in keys then keys else keys + [k]
  }

  /** The list holds exactly the keys of the table. */
  lemma {:induction false} KeyListKeys(entries: seq<(string, string)>)
    ensures forall k :: k in KeyList(entries) <==> k in KeyTable(entries)
  {
    if entries != [] {
      KeyListKeys(entries[..|entries| - 1]);
    }
  }

  /** Of two keys in the list, the earlier one was inserted first: every entry carrying the
      later key is preceded by an entry carrying the earlier one. */
  lemma {:induction false} KeyListOrder(entries: seq<(string, string)>, p: nat, q: nat, j: nat)
    requires p < q < |KeyList(entries)| && j < |entries| && entries[j].1 == KeyList(entries)[q]
    ensures exists i :: 0 <= i < j && entries[i].1 == KeyList(entries)[p]
  {
    var n := |entries| - 1;
    var init := entries[..n];
    var ks := KeyList(init);
    var keys := KeyList(entries);
    KeyListKeys(init);
    assert keys[p] in ks && keys[p] in KeyTable(init) by {
      assert p < |ks|;
    }
    if j < n {
      assert init[j] == entries[j];
      if q < |ks| {
        KeyListOrder(init, p, q, j);
        var i :| 0 <= i < j && init[i].1 == ks[p];
        assert entries[i] == init[i];
      } else {
        assert keys[q] == entries[n].1 && entries[n].1 !in ks;
        KeyTableKeys(init, entries[n].1);
        assert false;
      }
    } else {
      KeyTableKeys(init, keys[p]);
      var i :| 0 <= i < |init| && init[i].1 == keys[p];
      assert entries[i] == init[i];
    }
  }

  /** The key list after the first two buttons. */
  lemma MethodKeyListTwoEntries()
    ensures KeyList(Methods[..2]) == ["separable", "homogeneous"]
  {
    assert Methods[..0] == [];
    KeyListStep(Methods, 0);
    KeyListStep(Methods, 1);
  }

  /** The key list after the first four buttons. */
  lemma MethodKeyListFirstHalf()
    ensures KeyList(Methods[..4]) == ["separable", "homogeneous", "exact", "linear"]
  {
    MethodKeyListTwoEntries();
    KeyListStep(Methods, 2);
    assert KeyList(Methods[..3]) == ["separable", "homogeneous", "exact"];
    KeyListStep(Methods, 3);
  }

  /** The key list of the window's buttons: the second "homogeneous" entry adds no key. */
  lemma MethodKeyList()
    ensures KeyList(Methods) ==
      ["separable", "homogeneous", "exact", "linear", "Bernoulli", "non-homogeneous", "variation of parameters"]
  {
    MethodKeyListSevenEntries();
    KeyListStep(Methods, 7);
    assert Methods[..8] == Methods;
  }

  lemma MethodKeyListSevenEntries()
    ensures KeyList(Methods[..7]) == ["separable", "homogeneous", "exact", "linear", "Bernoulli", "non-homogeneous"]
  {
    MethodKeyListSixEntries();
    KeyListStep(Methods, 6);
  }

  lemma MethodKeyListSixEntries()
    ensures KeyList(Methods[..6]) == ["separable", "homogeneous", "exact", "linear", "Bernoulli"]
  {
    MethodKeyListFirstHalf();
    KeyListStep(Methods, 4);
    assert "Bernoulli"[0] != "separable"[0];
    KeyListStep(Methods, 5);
  }

  lemma KeyListStep(entries: seq<(string, string)>, n: nat)
    requires n < |entries|
    ensures KeyList(entries[..n + 1]) ==
      if entries[n].1 in KeyList(entries[..n]) then KeyList(entries[..n]) else KeyList(entries[..n]) + [entries[n].1]
  {
    assert entries[..n + 1][..n] == entries[..n];
  }

  /** Registering the next entry extends the key list as the key order does. */
  lemma KeyListRegister<B>(keys: seq<string>, table: map<string, B>, entries: seq<(string, string)>, n: nat)
    requires n < |entries| && keys == KeyList(entries[..n]) && KeyOrder(keys, table)
    ensures KeyList(entries[..n + 1]) == if entries[n].1 in table then keys else keys + [entries[n].1]
  {
    KeyListStep(entries, n);
  }

  /** `keys` lists the keys of `table`, each exactly once. */
  ghost predicate KeyOrder<B>(keys: seq<string>, table: map<string, B>)
  {
    && (forall j :: 0 <= j < |keys| ==> keys[j] in table)
    && (forall k :: k in table ==> k in keys)
    && (forall p, q :: 0 <= p < q < |keys| ==> keys[p] != keys[q])
  }

  /** No two keys share a button. */
  ghost predicate Injective<B>(table: map<string, B>)
  {
    forall k, k' :: k in table && k' in table && k != k' ==> table[k] != table[k']
  }

  /** Registering a key: a new key is appended to the order, a known one keeps its place. */
  lemma KeyOrderRegister<B>(keys: seq<string>, table: map<string, B>, key: string, b: B)
    requires KeyOrder(keys, table)
    ensures KeyOrder(if key in table then keys else keys + [key], table[key := b])
  {
  }

  /** Registering a button that no key holds yet keeps the table injective. */
  lemma InjectiveRegister<B>(table: map<string, B>, key: string, b: B)
    requires Injective(table) && b !in table.Values
    ensures Injective(table[key := b])
  {
    var updated := table[key := b];
    forall k, k' | k in updated && k' in updated && k != k'
      ensures updated[k] != updated[k']
    {
      if k != key && k' != key {
        assert table[k] in table.Values && table[k'] in table.Values;
      } else if k == key {
        assert table[k'] in table.Values;
      } else {
        assert table[k] in table.Values;
      }
    }
  }

  /** One indicator button of the window. */
  class MethodButton {
    const text: string
    var enabled: bool

    constructor (text: string)
      ensures this.text == text && !enabled
    {
      this.text := text;
      enabled := false;
    }
  }

  /** `table` holds one button per key of `entries`, carrying the label `KeyTable` gives that key. */
  ghost predicate Labelled(table: map<string, MethodButton>, entries: seq<(string, string)>)
  {
    && table.Keys == KeyTable(entries).Keys
    && forall k :: k in table ==> table[k].text == KeyTable(entries)[k]
  }

  lemma LabelledStep(table: map<string, MethodButton>, entries: seq<(string, string)>, n: nat, b: MethodButton)
    requires n < |entries| && Labelled(table, entries[..n]) && b.text == entries[n].0
    ensures Labelled(table[entries[n].1 := b], entries[..n + 1])
  {
    KeyTableStep(entries, n);
  }

  /** Entry i is the last one carrying its key. */
  predicate LastOf(entries: seq<(string, string)>, i: nat)
    requires i < |entries|
  {
    forall j :: i < j < |entries| ==> entries[j].1 != entries[i].1
  }

  /** Each key holds the very button created for the last entry carrying it. */
  ghost predicate LastWins(table: map<string, MethodButton>, layout: seq<MethodButton>, entries: seq<(string, string)>)
  {
    && |layout| == |entries|
    && forall i :: 0 <= i < |entries| && LastOf(entries, i) ==> entries[i].1 in table && table[entries[i].1] == layout[i]
  }

  /** An entry that is last in a prefix one longer, and does not share the new entry's key, is
      last in the shorter prefix too. */
  lemma LastOfShorter(entries: seq<(string, string)>, n: nat, i: nat)
    requires i < n < |entries| && LastOf(entries[..n + 1], i)
    ensures entries[i].1 != entries[n].1 && LastOf(entries[..n], i)
  {
    var before, after := entries[..n], entries[..n + 1];
    assert after[n] == entries[n] && after[i] == entries[i];
    forall j | i < j < n
      ensures before[j].1 != before[i].1
    {
      assert before[j] == after[j];
    }
  }

  lemma LastWinsStep(table: map<string, MethodButton>, layout: seq<MethodButton>, entries: seq<(string, string)>, b: MethodButton)
    requires |layout| < |entries| && LastWins(table, layout, entries[..|layout|])
    ensures LastWins(table[entries[|layout|].1 := b], layout + [b], entries[..|layout| + 1])
  {
    var n := |layout|;
    var after := entries[..n + 1];
    var table', layout' := table[entries[n].1 := b], layout + [b];
    forall i | 0 <= i < |after| && LastOf(after, i)
      ensures after[i].1 in table' && table'[after[i].1] == layout'[i]
    {
      assert after[i] == entries[i];
      if i < n {
        LastOfShorter(entries, n, i);
        assert entries[..n][i] == entries[i];
        assert layout'[i] == layout[i];
      }
    }
  }

  /** The first |layout| entries each have their own button, disabled, carrying the entry's
      label. */
  ghost predicate Lays(layout: seq<MethodButton>, entries: seq<(string, string)>)
    reads layout
  {
    && |layout| <= |entries|
    && (forall j :: 0 <= j < |layout| ==> layout[j].text == entries[j].0 && !layout[j].enabled)
    && (forall p, q :: 0 <= p < q < |layout| ==> layout[p] != layout[q])
  }

  lemma LaysStep(layout: seq<MethodButton>, entries: seq<(string, string)>, b: MethodButton)
    requires Lays(layout, entries) && |layout| < |entries| && b !in layout
    requires b.text == entries[|layout|].0 && !b.enabled
    ensures Lays(layout + [b], entries)
  {
    var next := layout + [b];
    forall j | 0 <= j < |next|
      ensures next[j].text == entries[j].0 && !next[j].enabled
    {
      if j < |layout| {
        assert next[j] == layout[j];
      }
    }
    forall p, q | 0 <= p < q < |next|
      ensures next[p] != next[q]
    {
      assert next[p] == layout[p];
      if q < |layout| {
        assert next[q] == layout[q];
      }
    }
  }

  /** Creates one new, disabled button per entry, in order, and registers it under the entry's
      key; a later entry with the same key takes the key over. */
  method CreateButtons(entries: seq<(string, string)>)
    returns (layout: seq<MethodButton>, keys: seq<string>, table: map<string, MethodButton>)
    ensures |layout| == |entries| && Lays(layout, entries)
    ensures Labelled(table, entries)
    ensures forall k :: k in table ==> table[k] in layout
    ensures KeyOrder(keys, table) && Injective(table)
    ensures keys == KeyList(entries)
    ensures LastWins(table, layout, entries)
  {
    layout, keys, table := [], [], map[];
    var i := 0;
    while i < |entries|
      invariant 0 <= i <= |entries| && |layout| == i
      invariant Lays(layout, entries)
      invariant Labelled(table, entries[..i])
      invariant forall k :: k in table ==> table[k] in layout
      invariant KeyOrder(keys, table) && Injective(table)
      invariant keys == KeyList(entries[..i])
      invariant LastWins(table, layout, entries[..i])
    {
      var btn := new MethodButton(entries[i].0);
      LaysStep(layout, entries, btn);
      LabelledStep(table, entries, i, btn);
      LastWinsStep(table, layout, entries, btn);
      KeyListRegister(keys, table, entries, i);
      KeyOrderRegister(keys, table, entries[i].1, btn);
      InjectiveRegister(table, entries[i].1, btn);
      if entries[i].1 !in table {
        keys := keys + [entries[i].1];
      }
      ghost var oldTable := table;
      table := table[entries[i].1 := btn];
      ghost var before := layout;
      layout := layout + [btn];
      forall k | k in table
        ensures table[k] in layout
      {
        if k != entries[i].1 {
          assert oldTable[k] in before;
        }
      }
      i := i + 1;
    }
    assert entries[..i] == entries;
  }

  /** What a display panel was last told to show. */
  datatype Panel<E> = Blank | Message(text: string) | Formula(content: E)

  class OdeSolverApp<E(==)> {
    /** Every indicator button, in the order it was added to the layout. */
    var layout: seq<MethodButton>
    /** The keys of the button table in insertion order, which is the order it is walked in. */
    var methodKeys: seq<string>
    /** The button table. */
    var methodButtons: map<string, MethodButton>
    var inputPanel: Panel<E>
    var solutionPanel: Panel<E>
    /** The last equation that was evaluated. */
    var lastEq: Option<E>

    ghost predicate Valid()
      reads this, layout
    {
      && |layout| == |Methods|
      && (forall i, j :: 0 <= i < j < |layout| ==> layout[i] != layout[j])
      && KeyOrder(methodKeys, methodButtons)
      && Injective(methodButtons)
      && (forall k :: k in methodButtons ==> methodButtons[k] in layout)
      // a button that is in the layout but not in the table is never switched on
      && (forall b :: b in layout && b !in methodButtons.Values ==> !b.enabled)
    }

    /** The keys whose buttons are switched on. */
    ghost function EnabledKeys(): set<string>
      reads this, methodButtons.Values
    {
      set k | k in methodButtons && methodButtons[k].enabled
    }

    /** Creates the buttons, all disabled, registering each under its key. */
    constructor ()
      ensures Valid()
      ensures methodButtons.Keys == KeyTable(Methods).Keys
      ensures forall k :: k in methodButtons ==> methodButtons[k].text == KeyTable(Methods)[k]
      ensures forall i :: 0 <= i < |layout| ==> layout[i].text == Methods[i].0 && !layout[i].enabled
      ensures layout[1] !in methodButtons.Values
      ensures methodKeys == KeyList(Methods) && LastWins(methodButtons, layout, Methods)
      ensures inputPanel == Blank && solutionPanel == Blank && lastEq == None
    {
      var buttons, keys, table := CreateButtons(Methods);
      layout, methodKeys, methodButtons := buttons, keys, table;
      inputPanel := Blank;
      solutionPanel := Blank;
      lastEq := None;
      new;
      HomogeneousOrphaned();
      forall k | k in methodButtons
        ensures methodButtons[k] != layout[1]
      {
        assert KeyTable(Methods)[k] in KeyTable(Methods).Values;
      }
    }

    /** _enable_buttons: each registered button is switched on iff its key is in `keys`. */
    method EnableButtons(keys: seq<string>)
      requires Valid()
      modifies methodButtons.Values
      ensures Valid()
      ensures forall k :: k in methodButtons ==> methodButtons[k].enabled == (k in keys)
      ensures EnabledKeys() == set k | k in methodButtons && k in keys
      ensures forall b :: b in layout && b !in methodButtons.Values ==> b.enabled == old(b.enabled)
    {
      var i := 0;
      while i < |methodKeys|
        invariant 0 <= i <= |methodKeys|
        invariant forall j :: 0 <= j < i ==> methodButtons[methodKeys[j]].enabled == (methodKeys[j] in keys)
      {
        var key := methodKeys[i];
        methodButtons[key].enabled := key in keys;
        i := i + 1;
      }
    }

    /** on_enter: the rewritten line is evaluated; a failure shows the error and switches
        every button off; otherwise the equation is previewed and solved, and the solution and
        the buttons of the returned labels are shown. When the classifier raises, the exception
        leaves the handler (`escaped`) after the preview, and nothing else changes. */
    method OnEnter(line: string, parse: string -> Result<E, string>, cas: CalculateOde.Cas<E>, renders: E -> bool)
      returns (escaped: bool)
      requires Valid()
      modifies this, methodButtons.Values
      ensures Valid()
      ensures layout == old(layout) && methodKeys == old(methodKeys) && methodButtons == old(methodButtons)
      ensures parse(Preprocess(line)).Failure? ==>
        && !escaped
        && inputPanel == Message("Parse error: " + parse(Preprocess(line)).error)
        && solutionPanel == Message(ParseFailureNotice)
        && (forall b :: b in layout ==> !b.enabled)
        && lastEq == old(lastEq)
      ensures parse(Preprocess(line)).Success? ==>
        var eq := parse(Preprocess(line)).value;
        && inputPanel == (if renders(eq) then Formula(eq) else Message(Preprocess(line)))
        && (escaped <==> CalculateOde.Intended(cas, eq).None?)
      ensures parse(Preprocess(line)).Success? && escaped ==>
        && solutionPanel == old(solutionPanel)
        && (forall b :: b in layout ==> b.enabled == old(b.enabled))
        && lastEq == old(lastEq)
      ensures parse(Preprocess(line)).Success? && !escaped ==>
        var eq := parse(Preprocess(line)).value;
        var result := CalculateOde.Intended(cas, eq).value;
        && EnabledKeys() == (set k | k in methodButtons && k in result.labels)
        && solutionPanel == (if result.solution.Some? then Formula(result.solution.value) else Message(UnsolvedNotice))
        && lastEq == Some(eq)
    {
      var txt := Preprocess(line);
      match parse(txt) {
        case Failure(e) =>
          ShowParseFailure(e);
          escaped := false;
        case Success(eq) =>
          escaped := Evaluated(eq, txt, cas, renders);
      }
    }

    /** The part of on_enter after a successful evaluation: preview, solve, show. */
    method Evaluated(eq: E, txt: string, cas: CalculateOde.Cas<E>, renders: E -> bool) returns (escaped: bool)
      requires Valid()
      modifies this, methodButtons.Values
      ensures Valid()
      ensures layout == old(layout) && methodKeys == old(methodKeys) && methodButtons == old(methodButtons)
      ensures inputPanel == (if renders(eq) then Formula(eq) else Message(txt))
      ensures escaped <==> CalculateOde.Intended(cas, eq).None?
      ensures escaped ==>
        && solutionPanel == old(solutionPanel)
        && (forall b :: b in layout ==> b.enabled == old(b.enabled))
        && lastEq == old(lastEq)
      ensures !escaped ==>
        var result := CalculateOde.Intended(cas, eq).value;
        && EnabledKeys() == (set k | k in methodButtons && k in result.labels)
        && solutionPanel == (if result.solution.Some? then Formula(result.solution.value) else Message(UnsolvedNotice))
        && lastEq == Some(eq)
    {
      ShowPreview(eq, txt, renders);
      var run := CalculateOde.SolvingOde(cas, eq);
      escaped := run.None?;
      if !escaped {
        ShowSolution(eq, run.value.solution, run.value.labels);
      }
    }

    /** The failure branch of on_enter: both panels report the error and every button is off. */
    method ShowParseFailure(err: string)
      requires Valid()
      modifies this, methodButtons.Values
      ensures Valid()
      ensures layout == old(layout) && methodKeys == old(methodKeys) && methodButtons == old(methodButtons)
      ensures inputPanel == Message("Parse error: " + err) && solutionPanel == Message(ParseFailureNotice)
      ensures forall b :: b in layout ==> !b.enabled
      ensures lastEq == old(lastEq)
    {
      inputPanel := Message("Parse error: " + err);
      solutionPanel := Message(ParseFailureNotice);
      EnableButtons([]);
    }

    /** The preview of on_enter: the equation typeset, or the rewritten text when typesetting
        fails. */
    method ShowPreview(eq: E, txt: string, renders: E -> bool)
      requires Valid()
      modifies this
      ensures Valid()
      ensures layout == old(layout) && methodKeys == old(methodKeys) && methodButtons == old(methodButtons)
      ensures inputPanel == (if renders(eq) then Formula(eq) else Message(txt))
      ensures solutionPanel == old(solutionPanel) && lastEq == old(lastEq)
    {
      inputPanel := if renders(eq) then Formula(eq) else Message(txt);
    }

    /** The success branch of on_enter once the equation is solved: show the solution (or the
        unsolved notice), switch on exactly the buttons of the returned labels, and remember
        the equation. */
    method ShowSolution(eq: E, sol: Option<E>, classes: seq<string>)
      requires Valid()
      modifies this, methodButtons.Values
      ensures Valid()
      ensures layout == old(layout) && methodKeys == old(methodKeys) && methodButtons == old(methodButtons)
      ensures inputPanel == old(inputPanel)
      ensures EnabledKeys() == (set k | k in methodButtons && k in classes)
      ensures solutionPanel == (if sol.Some? then Formula(sol.value) else Message(UnsolvedNotice))
      ensures lastEq == Some(eq)
    {
      EnableButtons(classes);
      solutionPanel := if sol.None? then Message(UnsolvedNotice) else Formula(sol.value);
      lastEq := Some(eq);
    }
  }
}
