/**
 * The department tree component: its two pieces of state and the two
 * handlers its buttons and checkboxes call. Each handler builds the new list
 * step by step and then commits it to the component's state.
 */
module Component {
  import opened Catalog
  import opened Lists
  import opened Selection

  /**
   * The deselect loop: filters each sub-department out of the list in turn.
   * Afterwards none of them is left and every other name keeps its place.
   */
  method FilterEach(s: seq<string>, subs: seq<string>) returns (r: seq<string>)
    ensures r == RemoveAll(s, subs)
    ensures forall y :: y in r <==> y in s && y !in subs
  {
    r := s;
    for i := 0 to |subs|
      invariant r == RemoveAll(s, subs[..i])
    {
      assert subs[..i + 1][..i] == subs[..i];
      r := Without(r, subs[i]);
    }
    assert subs[..|subs|] == subs;
  }

  /**
   * The select loop: pushes each sub-department that is not yet in the list.
   * Afterwards all of them are in, the old list is a prefix, and nothing
   * pushed was already present.
   */
  method PushMissing(s: seq<string>, subs: seq<string>) returns (r: seq<string>)
    ensures r == AppendMissing(s, subs)
    ensures |s| <= |r| && r[..|s|] == s && AllIn(subs, r)
    ensures forall k :: |s| <= k < |r| ==> r[k] in subs
    ensures forall j, k :: 0 <= j < k < |r| && |s| <= k ==> r[j] != r[k]
  {
    r := s;
    for i := 0 to |subs|
      invariant r == AppendMissing(s, subs[..i])
    {
      assert subs[..i + 1][..i] == subs[..i];
      if subs[i] !in r {
        r := r + [subs[i]];
      }
    }
    assert subs[..|subs|] == subs;
    assert forall k :: 0 <= k < |subs| ==> subs[k] in r;
    AppendMissingFresh(s, subs);
  }

  class DepartmentTree {
    /** Departments whose sub-department rows are shown. */
    var expanded: seq<string>
    /** Checked departments and sub-departments. */
    var selected: seq<string>

    /** The invariant the tree keeps: the parent/child rule and no name checked twice. */
    ghost predicate Valid()
      reads this
    {
      Consistent(DEPARTMENTS, selected) && NoDup(selected)
    }

    constructor ()
      ensures expanded == [] && selected == []
      ensures Valid()
    {
      expanded := [];
      selected := [];
      DepartmentsWellFormed();
      NothingCheckedConsistent(DEPARTMENTS);
    }

    /** The expand button of department `name`: flips whether its rows are shown. */
    method HandleToggle(name: string)
      modifies this
      ensures expanded == Toggled(old(expanded), name)
      ensures name in expanded <==> name !in old(expanded)
      ensures forall x :: x != name ==> (x in expanded <==> x in old(expanded))
      ensures selected == old(selected)
    {
      expanded := if name in expanded then Without(expanded, name) else expanded + [name];
    }

    /**
     * The checkbox of `name`; `parent` is the owning department when `name`
     * is a sub-department. A click the tree's checkboxes make keeps Valid().
     */
    method HandleSelect(name: string, parent: Option<string>)
      modifies this
      ensures selected == AfterSelect(DEPARTMENTS, old(selected), name, parent)
      ensures expanded == old(expanded)
      ensures old(Valid()) && RendererCall(DEPARTMENTS, name, parent) ==> Valid()
    {
      var newSelected := selected;
      if name in newSelected {
        newSelected := Without(newSelected, name);
        var department := Find(DEPARTMENTS, name);
        if department.Some? {
          newSelected := FilterEach(newSelected, department.value.subDepartments);
        }
        if Truthy(parent) {
          newSelected := Without(newSelected, parent.value);
        }
      } else {
        newSelected := newSelected + [name];
        if Truthy(parent) {
          var parentDept := Find(DEPARTMENTS, parent.value);
          if parentDept.Some? {
            var allSubSelected := AllIn(parentDept.value.subDepartments, newSelected);
            if allSubSelected {
              newSelected := newSelected + [parent.value];
            }
          }
        } else {
          var dept := Find(DEPARTMENTS, name);
          if dept.Some? {
            newSelected := PushMissing(newSelected, dept.value.subDepartments);
          }
        }
      }
      if Valid() && RendererCall(DEPARTMENTS, name, parent) {
        DepartmentsWellFormed();
        AfterSelectKeepsInvariant(DEPARTMENTS, selected, name, parent);
      }
      selected := newSelected;
    }
  }
}
