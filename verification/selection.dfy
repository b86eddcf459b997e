/**
 * The selection engine of the department tree as functions of the state:
 * what `selected` becomes when a checkbox is clicked, what `expanded`
 * becomes when a department's expand button is clicked, and what holds of
 * them.
 */
module Selection {
  import opened Catalog
  import opened Lists

  /** JavaScript truthiness of the optional `parent` argument: absent and "" are both false. */
  predicate Truthy(parent: Option<string>) {
    parent.Some? && parent.value != ""
  }

  /** The expansion list after clicking the expand button of `name`. */
  function Toggled(expanded: seq<string>, name: string): (r: seq<string>)
    ensures name in r <==> name !in expanded
    ensures forall x :: x != name ==> (x in r <==> x in expanded)
  {
    if name in expanded then Without(expanded, name) else expanded + [name]
  }

  /**
   * The selection list after clicking the checkbox of `name`; `parent` is the
   * owning department when `name` is a sub-department.
   */
  function AfterSelect(catalog: seq<Department>, selected: seq<string>, name: string,
                       parent: Option<string>): seq<string>
  {
    if name in selected then
      var dropped := Without(selected, name);
      var department := Find(catalog, name);
      var cascaded := if department.Some? then RemoveAll(dropped, department.value.subDepartments)
                      else dropped;
      if Truthy(parent) then Without(cascaded, parent.value) else cascaded
    else
      var added := selected + [name];
      if Truthy(parent) then
        var parentDept := Find(catalog, parent.value);
        if parentDept.Some? && AllIn(parentDept.value.subDepartments, added) then added + [parent.value]
        else added
      else
        var dept := Find(catalog, name);
        if dept.Some? then AppendMissing(added, dept.value.subDepartments) else added
  }

  /** A department is selected exactly when all of its sub-departments are. */
  predicate Consistent(catalog: seq<Department>, selected: seq<string>) {
    forall i :: 0 <= i < |catalog| ==>
      (catalog[i].department in selected <==> AllIn(catalog[i].subDepartments, selected))
  }

  /**
   * The calls the tree's checkboxes make: a department's checkbox passes no
   * parent, a sub-department's checkbox passes the department that owns it.
   */
  predicate RendererCall(catalog: seq<Department>, name: string, parent: Option<string>) {
    match parent
    case None => exists i :: 0 <= i < |catalog| && catalog[i].department == name
    case Some(p) =>
      exists i :: 0 <= i < |catalog| && catalog[i].department == p && name in catalog[i].subDepartments
  }

  // ---------------------------------------------------------------------------
  // Expansion

  /**
   * Clicking the expand button twice gives back the same set of expanded
   * departments, and the very same list when the department started collapsed.
   */
  lemma {:induction false} ToggleTwice(expanded: seq<string>, name: string)
    ensures forall x :: x in Toggled(Toggled(expanded, name), name) <==> x in expanded
    ensures name !in expanded ==> Toggled(Toggled(expanded, name), name) == expanded
  {
    if name !in expanded {
      WithoutConcat(expanded, [name], name);
      WithoutAbsent(expanded, name);
      assert [name][1..] == [];
    }
  }

  // ---------------------------------------------------------------------------
  // The four branches of a click

  /** Unchecking a department drops it and all of its sub-departments, and nothing else. */
  lemma DeselectDepartment(catalog: seq<Department>, selected: seq<string>, name: string, d: Department)
    requires name in selected && Find(catalog, name) == Some(d)
    ensures forall y :: y in AfterSelect(catalog, selected, name, None) <==>
                        y in selected && y != name && y !in d.subDepartments
    ensures |AfterSelect(catalog, selected, name, None)| < |selected|
  {
  }

  /** Unchecking a sub-department drops it and its department, and nothing else. */
  lemma DeselectSubDepartment(catalog: seq<Department>, selected: seq<string>, name: string, p: string)
    requires name in selected && p != "" && Find(catalog, name) == None
    ensures forall y :: y in AfterSelect(catalog, selected, name, Some(p)) <==>
                        y in selected && y != name && y != p
    ensures |AfterSelect(catalog, selected, name, Some(p))| < |selected|
  {
  }

  /**
   * Checking a department appends it, then appends each of its
   * sub-departments that is not present yet, in catalog order.
   */
  lemma SelectDepartment(catalog: seq<Department>, selected: seq<string>, name: string, d: Department)
    requires name !in selected && Find(catalog, name) == Some(d)
    ensures var r := AfterSelect(catalog, selected, name, None);
      && |selected| < |r| && r[..|selected| + 1] == selected + [name]
      && (forall k :: |selected| < k < |r| ==> r[k] in d.subDepartments)
      && (forall j, k :: 0 <= j < k < |r| && |selected| < k ==> r[j] != r[k])
      && (forall y :: y in r <==> y in selected || y == name || y in d.subDepartments)
      && AllIn(d.subDepartments, r)
  {
    var r := AfterSelect(catalog, selected, name, None);
    assert r == AppendMissing(selected + [name], d.subDepartments);
    AppendMissingFresh(selected + [name], d.subDepartments);
    assert forall k :: 0 <= k < |d.subDepartments| ==> d.subDepartments[k] in r;
  }

  /**
   * Checking a sub-department appends it, and appends its department exactly
   * when every sub-department of that department is then selected.
   */
  lemma SelectSubDepartment(catalog: seq<Department>, selected: seq<string>, name: string,
                            p: string, pd: Department)
    requires name !in selected && p != "" && Find(catalog, p) == Some(pd)
    ensures var r := AfterSelect(catalog, selected, name, Some(p));
      && (AllIn(pd.subDepartments, r) ==> r == selected + [name, p])
      && (!AllIn(pd.subDepartments, r) ==> r == selected + [name])
  {
    var added := selected + [name];
    if AllIn(pd.subDepartments, added) {
      var r := added + [p];
      assert r == selected + [name, p];
      assert forall k :: 0 <= k < |pd.subDepartments| ==> pd.subDepartments[k] in r;
    }
  }

  /** Checking an unchecked name only appends: the old list is a prefix of the new one. */
  lemma SelectOnlyAdds(catalog: seq<Department>, selected: seq<string>, name: string, parent: Option<string>)
    requires name !in selected
    ensures var r := AfterSelect(catalog, selected, name, parent);
      |selected| < |r| && r[..|selected|] == selected && name in r
  {
    var r := AfterSelect(catalog, selected, name, parent);
    var added := selected + [name];
    assert |added| <= |r| && r[..|added|] == added by {
      if !Truthy(parent) && Find(catalog, name).Some? {
        assert r == AppendMissing(added, Find(catalog, name).value.subDepartments);
      }
    }
    assert r[..|selected|] == r[..|added|][..|selected|];
  }

  /** Unchecking a checked name only drops names, that one among them. */
  lemma DeselectOnlyRemoves(catalog: seq<Department>, selected: seq<string>, name: string, parent: Option<string>)
    requires name in selected
    ensures var r := AfterSelect(catalog, selected, name, parent);
      |r| < |selected| && name !in r && forall y :: y in r ==> y in selected
  {
  }

  // ---------------------------------------------------------------------------
  // The invariant the tree keeps

  /** The empty selection the tree starts from is consistent. */
  lemma NothingCheckedConsistent(catalog: seq<Department>)
    requires WellFormed(catalog)
    ensures Consistent(catalog, [])
  {
    forall i | 0 <= i < |catalog|
      ensures catalog[i].department !in [] && !AllIn(catalog[i].subDepartments, [])
    {
      assert catalog[i].subDepartments[0] !in [];
    }
  }

  /** In a well-formed catalog two different departments share no name. */
  lemma Separate(catalog: seq<Department>, i: int, j: int)
    requires WellFormed(catalog)
    requires 0 <= i < |catalog| && 0 <= j < |catalog| && i != j
    ensures catalog[j].department != catalog[i].department
    ensures catalog[j].department !in catalog[i].subDepartments
    ensures forall k :: 0 <= k < |catalog[j].subDepartments| ==>
              catalog[j].subDepartments[k] != catalog[i].department &&
              catalog[j].subDepartments[k] !in catalog[i].subDepartments
  {
    forall k | 0 <= k < |catalog[j].subDepartments|
      ensures catalog[j].subDepartments[k] !in catalog[i].subDepartments
    {
      assert catalog[j].subDepartments[k] in catalog[j].subDepartments;
    }
  }

  /**
   * When a click changes the membership of no name other than department `i`
   * and its sub-departments, every other department stays consistent.
   */
  lemma ConsistentElsewhere(catalog: seq<Department>, selected: seq<string>, r: seq<string>, i: int)
    requires WellFormed(catalog) && Consistent(catalog, selected) && 0 <= i < |catalog|
    requires forall y :: y != catalog[i].department && y !in catalog[i].subDepartments ==>
                         (y in r <==> y in selected)
    ensures forall j :: 0 <= j < |catalog| && j != i ==>
              (catalog[j].department in r <==> AllIn(catalog[j].subDepartments, r))
  {
    forall j | 0 <= j < |catalog| && j != i
      ensures catalog[j].department in r <==> AllIn(catalog[j].subDepartments, r)
    {
      Separate(catalog, i, j);
      var subs := catalog[j].subDepartments;
      assert forall k :: 0 <= k < |subs| ==> (subs[k] in r <==> subs[k] in selected);
    }
  }

  /** Unchecking a checked department keeps the invariants. */
  lemma UncheckDepartmentKeepsInvariant(catalog: seq<Department>, selected: seq<string>, i: int)
    requires WellFormed(catalog) && Consistent(catalog, selected) && NoDup(selected)
    requires 0 <= i < |catalog| && catalog[i].department in selected
    ensures var r := AfterSelect(catalog, selected, catalog[i].department, None);
      Consistent(catalog, r) && NoDup(r)
  {
    var d := catalog[i];
    var r := AfterSelect(catalog, selected, d.department, None);
    FindOwner(catalog, i);
    DeselectDepartment(catalog, selected, d.department, d);
    ConsistentElsewhere(catalog, selected, r, i);
    assert d.subDepartments[0] !in r;
    assert r == RemoveAll(Without(selected, d.department), d.subDepartments);
    WithoutNoDup(selected, d.department);
    RemoveAllNoDup(Without(selected, d.department), d.subDepartments);
  }

  /** Checking an unchecked department keeps the invariants. */
  lemma CheckDepartmentKeepsInvariant(catalog: seq<Department>, selected: seq<string>, i: int)
    requires WellFormed(catalog) && Consistent(catalog, selected) && NoDup(selected)
    requires 0 <= i < |catalog| && catalog[i].department !in selected
    ensures var r := AfterSelect(catalog, selected, catalog[i].department, None);
      Consistent(catalog, r) && NoDup(r)
  {
    var d := catalog[i];
    var r := AfterSelect(catalog, selected, d.department, None);
    FindOwner(catalog, i);
    SelectDepartment(catalog, selected, d.department, d);
    ConsistentElsewhere(catalog, selected, r, i);
    assert NoDup(selected + [d.department]);
    assert r == AppendMissing(selected + [d.department], d.subDepartments);
    AppendMissingFresh(selected + [d.department], d.subDepartments);
  }

  /** Unchecking a checked sub-department, its department given, keeps the invariants. */
  lemma UncheckSubDepartmentKeepsInvariant(catalog: seq<Department>, selected: seq<string>,
                                           i: int, name: string)
    requires WellFormed(catalog) && Consistent(catalog, selected) && NoDup(selected)
    requires 0 <= i < |catalog| && name in catalog[i].subDepartments && name in selected
    ensures var r := AfterSelect(catalog, selected, name, Some(catalog[i].department));
      Consistent(catalog, r) && NoDup(r)
  {
    var pd := catalog[i];
    var r := AfterSelect(catalog, selected, name, Some(pd.department));
    assert Find(catalog, name) == None;
    DeselectSubDepartment(catalog, selected, name, pd.department);
    ConsistentElsewhere(catalog, selected, r, i);
    assert r == Without(Without(selected, name), pd.department);
    WithoutNoDup(selected, name);
    WithoutNoDup(Without(selected, name), pd.department);
  }

  /** Checking an unchecked sub-department, its department given, keeps the invariants. */
  lemma CheckSubDepartmentKeepsInvariant(catalog: seq<Department>, selected: seq<string>,
                                         i: int, name: string)
    requires WellFormed(catalog) && Consistent(catalog, selected) && NoDup(selected)
    requires 0 <= i < |catalog| && name in catalog[i].subDepartments && name !in selected
    ensures var r := AfterSelect(catalog, selected, name, Some(catalog[i].department));
      Consistent(catalog, r) && NoDup(r)
  {
    var pd := catalog[i];
    var p := pd.department;
    var r := AfterSelect(catalog, selected, name, Some(p));
    FindOwner(catalog, i);
    assert p !in selected by {
      assert !AllIn(pd.subDepartments, selected);
    }
    SelectSubDepartment(catalog, selected, name, p, pd);
    assert forall y :: y != p && y !in pd.subDepartments ==> (y in r <==> y in selected);
    ConsistentElsewhere(catalog, selected, r, i);
    assert NoDup(selected + [name]);
    assert NoDup(selected + [name, p]);
  }

  /**
   * Every click the tree's checkboxes can make keeps both invariants: a
   * department is selected exactly when all of its sub-departments are, and
   * no name is selected twice.
   */
  lemma AfterSelectKeepsInvariant(catalog: seq<Department>, selected: seq<string>,
                                  name: string, parent: Option<string>)
    requires WellFormed(catalog) && Consistent(catalog, selected) && NoDup(selected)
    requires RendererCall(catalog, name, parent)
    ensures Consistent(catalog, AfterSelect(catalog, selected, name, parent))
    ensures NoDup(AfterSelect(catalog, selected, name, parent))
  {
    match parent
    case None =>
      var i :| 0 <= i < |catalog| && catalog[i].department == name;
      if name in selected {
        UncheckDepartmentKeepsInvariant(catalog, selected, i);
      } else {
        CheckDepartmentKeepsInvariant(catalog, selected, i);
      }
    case Some(p) =>
      var i :| 0 <= i < |catalog| && catalog[i].department == p && name in catalog[i].subDepartments;
      if name in selected {
        UncheckSubDepartmentKeepsInvariant(catalog, selected, i, name);
      } else {
        CheckSubDepartmentKeepsInvariant(catalog, selected, i, name);
      }
  }

  // ---------------------------------------------------------------------------
  // Checking and then unchecking the same box

  /**
   * From a consistent selection, checking an unchecked sub-department and
   * then unchecking it again gives back the very same list.
   */
  lemma {:induction false} SubDepartmentRoundTrip(catalog: seq<Department>, selected: seq<string>,
                                                  i: int, name: string)
    requires WellFormed(catalog) && Consistent(catalog, selected)
    requires 0 <= i < |catalog| && name in catalog[i].subDepartments && name !in selected
    ensures var parent := Some(catalog[i].department);
      AfterSelect(catalog, AfterSelect(catalog, selected, name, parent), name, parent) == selected
  {
    var p := catalog[i].department;
    FindOwner(catalog, i);
    assert Find(catalog, name) == None;
    assert p != name;
    assert p !in selected by {
      assert !AllIn(catalog[i].subDepartments, selected);
    }
    var r1 := AfterSelect(catalog, selected, name, Some(p));
    var t := r1[|selected|..];
    assert t == [name] || t == [name, p];
    assert r1 == selected + t;
    WithoutConcat(selected, t, name);
    WithoutAbsent(selected, name);
    var u := Without(t, name);
    assert t[1..] == [] || t[1..] == [p];
    assert [p][1..] == [];
    assert u == [] || u == [p];
    WithoutConcat(selected, u, p);
    WithoutAbsent(selected, p);
  }

  /**
   * From a consistent selection where none of a department's sub-departments
   * is checked, checking the department and then unchecking it gives back the
   * very same list.
   */
  lemma {:induction false} DepartmentRoundTrip(catalog: seq<Department>, selected: seq<string>, i: int)
    requires WellFormed(catalog) && Consistent(catalog, selected)
    requires 0 <= i < |catalog|
    requires forall k :: 0 <= k < |catalog[i].subDepartments| ==> catalog[i].subDepartments[k] !in selected
    ensures var name := catalog[i].department;
      AfterSelect(catalog, AfterSelect(catalog, selected, name, None), name, None) == selected
  {
    var d := catalog[i];
    FindOwner(catalog, i);
    assert d.department !in selected by {
      assert d.subDepartments[0] !in selected;
    }
    CheckThenUncheckDepartment(catalog, selected, d);
  }

  /** The round trip for a department that is found under its name and absent with all its children. */
  lemma CheckThenUncheckDepartment(catalog: seq<Department>, selected: seq<string>, d: Department)
    requires Find(catalog, d.department) == Some(d)
    requires d.department !in selected
    requires forall k :: 0 <= k < |d.subDepartments| ==> d.subDepartments[k] !in selected
    ensures AfterSelect(catalog, AfterSelect(catalog, selected, d.department, None), d.department, None) == selected
  {
    var t := CheckedDepartmentTail(catalog, selected, d);
    UncheckAppendedDepartment(catalog, selected, d, t);
  }

  /** Checking an unchecked department appends it followed by some of its sub-departments. */
  lemma CheckedDepartmentTail(catalog: seq<Department>, selected: seq<string>, d: Department)
    returns (t: seq<string>)
    requires Find(catalog, d.department) == Some(d) && d.department !in selected
    ensures AfterSelect(catalog, selected, d.department, None) == selected + ([d.department] + t)
    ensures forall y :: y in t ==> y in d.subDepartments
  {
    var added := selected + [d.department];
    var r1 := AppendMissing(added, d.subDepartments);
    assert AfterSelect(catalog, selected, d.department, None) == r1;
    t := r1[|added|..];
    assert r1 == r1[..|added|] + t;
    assert r1 == added + t;
    assert added + t == selected + ([d.department] + t);
    forall y | y in t ensures y in d.subDepartments {
      var k :| 0 <= k < |t| && t[k] == y;
      assert r1[|added| + k] == y;
    }
  }

  /**
   * Unchecking a department that was appended, followed by some of its
   * sub-departments, to a list holding none of them, gives that list back.
   */
  lemma UncheckAppendedDepartment(catalog: seq<Department>, selected: seq<string>, d: Department,
                                  t: seq<string>)
    requires Find(catalog, d.department) == Some(d)
    requires d.department !in selected
    requires forall k :: 0 <= k < |d.subDepartments| ==> d.subDepartments[k] !in selected
    requires forall y :: y in t ==> y in d.subDepartments
    ensures AfterSelect(catalog, selected + ([d.department] + t), d.department, None) == selected
  {
    var name := d.department;
    var r1 := selected + ([name] + t);
    WithoutConcat(selected, [name] + t, name);
    WithoutConcat([name], t, name);
    WithoutAbsent(selected, name);
    assert [name][1..] == [];
    var u := Without(t, name);
    assert Without(r1, name) == selected + u;
    RemoveAllConcat(selected, u, d.subDepartments);
    RemoveAllAbsent(selected, d.subDepartments);
    RemoveAllCovered(u, d.subDepartments);
  }

  /**
   * Without those conditions the round trip fails: checking a department while
   * one of its sub-departments is already checked, then unchecking it, also
   * unchecks that sub-department.
   */
  lemma ReselectDropsCheckedChild()
    ensures Consistent(DEPARTMENTS, ["support"])
    ensures AfterSelect(DEPARTMENTS, ["support"], "customer_service", None) ==
            ["support", "customer_service", "customer_success"]
    ensures AfterSelect(DEPARTMENTS, AfterSelect(DEPARTMENTS, ["support"], "customer_service", None),
                        "customer_service", None) == []
  {
    SupportOnlyConsistent();
    var r1 := ["support", "customer_service", "customer_success"];
    CheckCustomerServiceOverSupport();
    UncheckCustomerService(r1);
  }

  lemma SupportOnlyConsistent()
    ensures Consistent(DEPARTMENTS, ["support"])
  {
    var cs := DEPARTMENTS[0];
    var ds := DEPARTMENTS[1];
    assert cs.department !in ["support"] && !AllIn(cs.subDepartments, ["support"]) by {
      assert cs.subDepartments[1] !in ["support"];
    }
    assert ds.department !in ["support"] && !AllIn(ds.subDepartments, ["support"]) by {
      assert ds.subDepartments[0] !in ["support"];
    }
  }

  lemma CheckCustomerServiceOverSupport()
    ensures AfterSelect(DEPARTMENTS, ["support"], "customer_service", None) ==
            ["support", "customer_service", "customer_success"]
  {
    var added := ["support", "customer_service"];
    assert ["support"] + ["customer_service"] == added;
    assert Find(DEPARTMENTS, "customer_service") == Some(DEPARTMENTS[0]);
    assert DEPARTMENTS[0].subDepartments == ["support"] + ["customer_success"];
    assert ["support"] == [] + ["support"];
    AppendMissingSnoc(added, [], "support");
    AppendMissingSnoc(added, ["support"], "customer_success");
    assert "customer_success" !in added;
  }

  lemma UncheckCustomerService(r1: seq<string>)
    requires r1 == ["support", "customer_service", "customer_success"]
    ensures AfterSelect(DEPARTMENTS, r1, "customer_service", None) == []
  {
    assert Find(DEPARTMENTS, "customer_service") == Some(DEPARTMENTS[0]);
    var dropped := ["support", "customer_success"];
    DropCustomerService(r1);
    DropCustomerServiceChildren(dropped);
  }

  lemma DropCustomerService(r1: seq<string>)
    requires r1 == ["support", "customer_service", "customer_success"]
    ensures Without(r1, "customer_service") == ["support", "customer_success"]
  {
    assert "customer_success"[10] != "customer_service"[10] && "support"[0] != "customer_service"[0];
    assert r1[1..][1..] == ["customer_success"] && ["customer_success"][1..] == [];
    assert Without(["customer_success"], "customer_service") == ["customer_success"];
    assert Without(r1[1..], "customer_service") == ["customer_success"];
  }

  lemma DropCustomerServiceChildren(dropped: seq<string>)
    requires dropped == ["support", "customer_success"]
    ensures RemoveAll(dropped, DEPARTMENTS[0].subDepartments) == []
  {
    assert DEPARTMENTS[0].subDepartments == ["support"] + ["customer_success"];
    assert ["support"] == [] + ["support"];
    RemoveAllSnoc(dropped, [], "support");
    RemoveAllSnoc(dropped, ["support"], "customer_success");
    assert Without(dropped, "support") == ["customer_success"] by {
      assert dropped[1..] == ["customer_success"] && ["customer_success"][1..] == [];
    }
    assert Without(["customer_success"], "customer_success") == [] by {
      assert ["customer_success"][1..] == [];
    }
  }

  // ---------------------------------------------------------------------------
  // Concrete clicks on the compiled-in catalog

  /** Checking `support`, then `customer_success`, promotes `customer_service`; unchecking `support` demotes it. */
  lemma CustomerServiceScenario()
    ensures var s1 := AfterSelect(DEPARTMENTS, [], "support", Some("customer_service"));
      var s2 := AfterSelect(DEPARTMENTS, s1, "customer_success", Some("customer_service"));
      && s1 == ["support"]
      && s2 == ["support", "customer_success", "customer_service"]
      && AfterSelect(DEPARTMENTS, s2, "support", Some("customer_service")) == ["customer_success"]
  {
    CheckSupport();
    CheckCustomerSuccess();
    UncheckSupport();
  }

  lemma CheckSupport()
    ensures AfterSelect(DEPARTMENTS, [], "support", Some("customer_service")) == ["support"]
  {
    assert Find(DEPARTMENTS, "customer_service") == Some(DEPARTMENTS[0]);
    assert [] + ["support"] == ["support"];
    assert DEPARTMENTS[0].subDepartments[1] !in ["support"];
  }

  lemma CheckCustomerSuccess()
    ensures AfterSelect(DEPARTMENTS, ["support"], "customer_success", Some("customer_service")) ==
            ["support", "customer_success", "customer_service"]
  {
    var added := ["support", "customer_success"];
    assert ["support"] + ["customer_success"] == added;
    assert Find(DEPARTMENTS, "customer_service") == Some(DEPARTMENTS[0]);
    assert AllIn(DEPARTMENTS[0].subDepartments, added);
    assert added + ["customer_service"] == ["support", "customer_success", "customer_service"];
  }

  lemma UncheckSupport()
    ensures AfterSelect(DEPARTMENTS, ["support", "customer_success", "customer_service"], "support",
                        Some("customer_service")) == ["customer_success"]
  {
    var s2 := ["support", "customer_success", "customer_service"];
    assert DEPARTMENTS[0].department != "support" && DEPARTMENTS[1].department != "support";
    assert Find(DEPARTMENTS, "support") == None;
    assert Without(s2, "support") == ["customer_success", "customer_service"] by {
      assert s2[1..] == ["customer_success", "customer_service"];
      assert s2[1..][1..] == ["customer_service"] && ["customer_service"][1..] == [];
    }
    assert Without(["customer_success", "customer_service"], "customer_service") == ["customer_success"] by {
      assert ["customer_success", "customer_service"][1..] == ["customer_service"];
      assert ["customer_service"][1..] == [];
    }
  }

  /** Checking `design` from nothing checks it and its three sub-departments. */
  lemma DesignScenario()
    ensures AfterSelect(DEPARTMENTS, [], "design", None) ==
            ["design", "graphic_design", "product_design", "web_design"]
  {
    var subs := DEPARTMENTS[1].subDepartments;
    assert "design" != "customer_service";
    assert Find(DEPARTMENTS, "design") == Some(DEPARTMENTS[1]);
    assert [] + ["design"] == ["design"];
    AppendDesignChildren();
  }

  /** Appending the children of `design` to `[design]` appends all three, in order. */
  lemma AppendDesignChildren()
    ensures AppendMissing(["design"], DEPARTMENTS[1].subDepartments) ==
            ["design", "graphic_design", "product_design", "web_design"]
  {
    var subs := DEPARTMENTS[1].subDepartments;
    assert subs[..0] == [] && subs[..1] == ["graphic_design"];
    assert subs[..2] == ["graphic_design", "product_design"] && subs[..3] == subs;
    var t1 := ["design", "graphic_design"];
    var t2 := t1 + ["product_design"];
    assert AppendMissing(["design"], subs[..1]) == t1 by {
      assert "graphic_design" !in ["design"];
    }
    assert AppendMissing(["design"], subs[..2]) == t2 by {
      assert "product_design" !in t1;
    }
    assert "web_design" !in t2;
  }
}
