/** Exact-name lookup of a virtual machine in the inventory view
    (`find_vm_by_name` in vexec.py). */
module Inventory {
  import opened Wrappers

  /** A managed virtual machine as the container view lists it: its display
      name and its managed-object id. */
  datatype Vm = Vm(name: string, moId: string)

  /** The position of the first VM in `view` whose name is exactly `name`. */
  function FirstMatch(view: seq<Vm>, name: string): (r: Option<nat>)
    ensures r.None? <==> forall i :: 0 <= i < |view| ==> view[i].name != name
    ensures r.Some? ==> r.value < |view| && view[r.value].name == name
    ensures r.Some? ==> forall j :: 0 <= j < r.value ==> view[j].name != name
  {
    if |view| == 0 then None
    else if view[0].name == name then Some(0)
    else
      match FirstMatch(view[1..], name)
      case None => None
      case Some(i) => Some(i + 1)
  }

  /** The VM the lookup hands back: the first exact match, or `None`. */
  function LookupVm(view: seq<Vm>, name: string): (vm: Option<Vm>)
  {
    match FirstMatch(view, name)
    case None => None
    case Some(i) => Some(view[i])
  }

  /** The loop over the container view, returning at the first VM whose
      name equals `name` and `None` when the view is exhausted. */
  method FindVmByName(view: seq<Vm>, name: string) returns (vm: Option<Vm>)
    ensures vm == LookupVm(view, name)
    ensures vm.None? <==> forall i :: 0 <= i < |view| ==> view[i].name != name
    ensures vm.Some? ==> vm.value.name == name && vm.value in view
  {
    for i := 0 to |view|
      invariant forall j :: 0 <= j < i ==> view[j].name != name
    {
      if view[i].name == name {
        return Some(view[i]);
      }
    }
    return None;
  }
}
