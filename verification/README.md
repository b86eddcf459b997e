# Department tree selection model

A Dafny model of the selection engine of the two-level department checkbox
tree in `src/components/DepartmentTree.tsx`. The tree shows a fixed catalog of
departments, each with its sub-departments. The component keeps two lists of
names in its state:

- `expanded`: the departments whose sub-department rows are shown;
- `selected`: the checked departments and sub-departments.

Clicking a department's expand button calls `handleToggle(name)`, which flips
the department's membership in `expanded`. Clicking a checkbox calls
`handleSelect(name, parent?)`. A department's checkbox passes no parent. A
sub-department's checkbox passes its department. `handleSelect` copies
`selected` and edits the copy:

- If `name` is checked, it is filtered out. If `name` is a department, each of
  its sub-departments is filtered out in turn. If a parent is given, the
  parent is filtered out too.
- Otherwise `name` is pushed. With a parent, the parent is pushed once every
  sub-department of the parent is checked. Without a parent, each
  sub-department of `name` that is not yet checked is pushed.

The model has four modules:

- `Lists` (`lists.dfy`): the list operations the handlers use. `Without` is a
  `filter` by inequality. `RemoveAll` is the deselect `forEach`/`filter` loop
  as a function. `AppendMissing` is the select `forEach`/`push` loop as a
  function. Also the `NoDup` and `AllIn` (`every`/`includes`) predicates.
- `Catalog` (`catalog.dfy`): the `Department` record, the compiled-in
  catalog `DEPARTMENTS`, `Find` (the catalog's `find` by name) and
  `WellFormed`, the shape of catalog the selection logic relies on.
- `Selection` (`selection.dfy`): `AfterSelect`, the value `selected` takes
  after a click, and `Toggled`, the value `expanded` takes. Each branch of a
  click is stated as a lemma. The lemmas also cover the invariant the tree
  keeps, the round trips that hold, one that does not, and the concrete clicks
  on the real catalog.
- `Component` (`tree.dfy`): the component as a class `DepartmentTree` with
  fields `expanded` and `selected`. `HandleToggle` and `HandleSelect` update
  them. The two loops of `handleSelect` are the methods `FilterEach` and
  `PushMissing`. Each is proved against the function that specifies it.

The pure functions take the catalog as a parameter so that the lemmas hold
for any well-formed catalog. The class always uses `DEPARTMENTS`, as the
component does.

`if (parent)` in the source is JavaScript truthiness. An absent parent and an
empty-string parent are both false. The model writes this as `Truthy(parent)`.
The tree's own checkboxes never pass an empty parent.

Checking a box and unchecking it again is sometimes described as giving back
the previous selection. The code does not guarantee that. Suppose a department
is checked while one of its sub-departments is already checked. Unchecking the
department then also unchecks that sub-department. The model follows the
code. `ReselectDropsCheckedChild` shows the case, and the two round-trip
lemmas state when the round trip does hold.

## Model

| member | source | states |
|---|---|---|
| `Lists.Without` | src/components/DepartmentTree.tsx:41 | filtering `x` out keeps exactly the names other than `x`; never grows the list; shrinks it when `x` was present |
| `Lists.WithoutNoDup` | src/components/DepartmentTree.tsx:41 | filtering keeps a duplicate-free list duplicate-free |
| `Lists.RemoveAll` | src/components/DepartmentTree.tsx:44-46 | after filtering out each name of a list in turn, exactly the names outside that list remain, and the list never grows |
| `Lists.RemoveAllNoDup` | src/components/DepartmentTree.tsx:44-46 | filtering out each name of a list in turn keeps a duplicate-free list duplicate-free |
| `Lists.AppendMissing` | src/components/DepartmentTree.tsx:66-70 | pushing each missing name keeps the old list as a prefix; the result holds exactly the old names and the pushed list's names; every appended name comes from the pushed list |
| `Lists.AppendMissingFresh` | src/components/DepartmentTree.tsx:66-70 | no appended name equals any name before it, so a name already present is never pushed again and a duplicate-free list stays duplicate-free |
| `Catalog.Find` | src/components/DepartmentTree.tsx:42 | the lookup returns the first catalog entry with that department name, and nothing exactly when no entry has that name |
| `Catalog.DepartmentsWellFormed` | src/components/DepartmentTree.tsx:11-27 | in the compiled-in catalog, department names are non-empty and distinct, every department has a sub-department, no department name is a sub-department name, and no sub-department belongs to two departments |
| `Catalog.FindOwner` | src/components/DepartmentTree.tsx:56 | in a well-formed catalog, looking up a department's own name finds that department |
| `Selection.Toggled` | src/components/DepartmentTree.tsx:34 | toggling flips whether `name` is expanded and keeps every other name's membership |
| `Selection.ToggleTwice` | src/components/DepartmentTree.tsx:33-35 | toggling twice gives back the same expanded set, and the identical list when `name` started collapsed |
| `Selection.DeselectDepartment` | src/components/DepartmentTree.tsx:39-47 | unchecking a checked department removes it and every one of its sub-departments; every other name keeps its membership; the list shrinks |
| `Selection.DeselectSubDepartment` | src/components/DepartmentTree.tsx:39-51 | unchecking a checked sub-department with its parent given removes both; every other name keeps its membership |
| `Selection.SelectDepartment` | src/components/DepartmentTree.tsx:52-72 | checking an unchecked department appends it, then only sub-departments not yet present, so none is appended twice; afterwards the department and all its sub-departments are checked and nothing else changed |
| `Selection.SelectSubDepartment` | src/components/DepartmentTree.tsx:53-62 | checking an unchecked sub-department appends it, and appends the parent exactly when every sub-department of the parent is checked afterwards |
| `Selection.SelectOnlyAdds` | src/components/DepartmentTree.tsx:52-72 | the select branch only appends: the old list is a strict prefix of the new one, which holds `name` |
| `Selection.DeselectOnlyRemoves` | src/components/DepartmentTree.tsx:39-51 | the deselect branch only drops names: the list shrinks, `name` leaves it, and every remaining name was there before |
| `Selection.NothingCheckedConsistent` | src/components/DepartmentTree.tsx:31 | the empty selection of a freshly mounted tree satisfies the parent/child rule |
| `Selection.UncheckDepartmentKeepsInvariant` | src/components/DepartmentTree.tsx:39-47 | unchecking a department keeps the parent/child rule and the absence of duplicates |
| `Selection.CheckDepartmentKeepsInvariant` | src/components/DepartmentTree.tsx:63-71 | checking a department keeps the parent/child rule and the absence of duplicates |
| `Selection.UncheckSubDepartmentKeepsInvariant` | src/components/DepartmentTree.tsx:49-51 | unchecking a sub-department with its department keeps the parent/child rule and the absence of duplicates |
| `Selection.CheckSubDepartmentKeepsInvariant` | src/components/DepartmentTree.tsx:55-62 | checking a sub-department with its department keeps the parent/child rule and the absence of duplicates |
| `Selection.AfterSelectKeepsInvariant` | src/components/DepartmentTree.tsx:37-75 | for every call a checkbox makes (department without parent, line 92; sub-department with its department, line 106), a department stays checked exactly when all its sub-departments are, and no name is checked twice |
| `Selection.SubDepartmentRoundTrip` | src/components/DepartmentTree.tsx:37-75 | from a consistent selection, checking an unchecked sub-department and unchecking it again gives back the identical list |
| `Selection.DepartmentRoundTrip` | src/components/DepartmentTree.tsx:37-75 | from a consistent selection with none of a department's sub-departments checked, checking the department and unchecking it gives back the identical list |
| `Selection.ReselectDropsCheckedChild` | src/components/DepartmentTree.tsx:42-47 | from the consistent selection `[support]`, checking then unchecking `customer_service` leaves nothing, so the round trip fails in general |
| `Selection.CustomerServiceScenario` | src/components/DepartmentTree.tsx:13-17 | from empty, checking `support` then `customer_success` gives exactly `support, customer_success, customer_service`; unchecking `support` then leaves only `customer_success` |
| `Selection.DesignScenario` | src/components/DepartmentTree.tsx:20-25 | from empty, checking `design` gives exactly `design, graphic_design, product_design, web_design` |
| `Component.FilterEach` | src/components/DepartmentTree.tsx:44-46 | the deselect loop computes `RemoveAll`: no sub-department is left and every other name stays |
| `Component.PushMissing` | src/components/DepartmentTree.tsx:66-70 | the select loop computes `AppendMissing`: all sub-departments end up in, the old list is a prefix, and nothing pushed was already present |
| `Component.DepartmentTree.constructor` | src/components/DepartmentTree.tsx:30-31 | the tree mounts with nothing expanded and nothing checked, a state that satisfies the invariant |
| `Component.DepartmentTree.HandleToggle` | src/components/DepartmentTree.tsx:33-35 | the expand button flips `name` in `expanded`, keeps every other name's membership, and leaves `selected` unchanged |
| `Component.DepartmentTree.HandleSelect` | src/components/DepartmentTree.tsx:37-75 | a click sets `selected` to `AfterSelect` of the old selection, leaves `expanded` unchanged, and keeps the invariant for every call a checkbox makes |

## Left out

- `renderDepartment` and the rest of the component's JSX rendering (src/components/DepartmentTree.tsx:77-124). It is declarative UI whose only logic is membership tests. The calls its checkboxes make are captured by `RendererCall`.
- `src/pages/Home.tsx` and `src/pages/Second.tsx` are not part of this model. They are browser glue: local storage, navigation, an alert, and an HTTP fetch.
- React's state updates are asynchronous, and a handler reads the state of the render that created it. The model commits each handler's result at once, so it does not capture two clicks handled against the same stale state.
- Calls with an unknown name or with a parent that does not own `name` are modelled exactly as the code runs them (`AfterSelect` covers every input). The invariant lemmas are stated only for the calls the checkboxes make, because the code gives no promise for other calls.
