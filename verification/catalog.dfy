/**
 * The fixed, compiled-in catalog of departments and their sub-departments,
 * and the lookup of a department by name.
 */
module Catalog {

  datatype Option<T> = None | Some(value: T)

  /** A top-level department with its ordered list of sub-departments. */
  datatype Department = Department(department: string, subDepartments: seq<string>)

  /** The catalog the tree shows. */
  const DEPARTMENTS: seq<Department> := [
    Department("customer_service", ["support", "customer_success"]),
    Department("design", ["graphic_design", "product_design", "web_design"])
  ]

  /** The first entry of `catalog` whose department is called `name`, if any. */
  function Find(catalog: seq<Department>, name: string): (r: Option<Department>)
    ensures r.Some? ==> r.value in catalog && r.value.department == name
    ensures r.None? <==> forall i :: 0 <= i < |catalog| ==> catalog[i].department != name
    ensures forall i :: 0 <= i < |catalog| && catalog[i].department == name &&
                        (forall j :: 0 <= j < i ==> catalog[j].department != name) ==>
                        r == Some(catalog[i])
  {
    if catalog == [] then None
    else if catalog[0].department == name then Some(catalog[0])
    else
      var r := Find(catalog[1..], name);
      assert forall i :: 1 <= i < |catalog| ==> catalog[i] == catalog[1..][i - 1];
      r
  }

  /**
   * The shape the selection logic relies on: department names are non-empty
   * and distinct, every department has at least one sub-department, no
   * department name is also a sub-department name, and each sub-department
   * belongs to one department only.
   */
  predicate WellFormed(catalog: seq<Department>) {
    (forall i :: 0 <= i < |catalog| ==>
       catalog[i].department != "" && catalog[i].subDepartments != []) &&
    (forall i, j :: 0 <= i < j < |catalog| ==> catalog[i].department != catalog[j].department) &&
    (forall i, j :: 0 <= i < |catalog| && 0 <= j < |catalog| ==>
       catalog[i].department !in catalog[j].subDepartments) &&
    (forall i, j, s :: 0 <= i < j < |catalog| && s in catalog[i].subDepartments ==>
       s !in catalog[j].subDepartments)
  }

  /** The compiled-in catalog has that shape. */
  lemma DepartmentsWellFormed()
    ensures WellFormed(DEPARTMENTS)
  {
    var cs := DEPARTMENTS[0];
    var d := DEPARTMENTS[1];
    assert cs.department != d.department by {
      assert cs.department[1] != d.department[1];
    }
    assert cs.department !in cs.subDepartments && cs.department !in d.subDepartments by {
      assert forall k :: 0 <= k < |cs.subDepartments| ==> cs.subDepartments[k] != cs.department;
      assert forall k :: 0 <= k < |d.subDepartments| ==> d.subDepartments[k] != cs.department;
    }
    assert d.department !in cs.subDepartments && d.department !in d.subDepartments by {
      assert forall k :: 0 <= k < |cs.subDepartments| ==> cs.subDepartments[k] != d.department;
      assert forall k :: 0 <= k < |d.subDepartments| ==> d.subDepartments[k] != d.department;
    }
    forall s | s in cs.subDepartments ensures s !in d.subDepartments {
      assert s == "support" || s == "customer_success";
    }
  }

  /** In a well-formed catalog a department's own name finds that department. */
  lemma FindOwner(catalog: seq<Department>, i: int)
    requires WellFormed(catalog)
    requires 0 <= i < |catalog|
    ensures Find(catalog, catalog[i].department) == Some(catalog[i])
  {
    assert forall j :: 0 <= j < i ==> catalog[j].department != catalog[i].department;
  }
}
