/** The list of protected paths as one sequence: what an insertion, a removal
    and a membership test mean when each is a single step. */
module PathList {
  import opened KernelTypes

  /** First entry whose path begins with the request; the length if there is none. */
  function FirstMatch(l: seq<Entry>, request: string): (k: nat)
    ensures k <= |l|
    ensures k < |l| ==> request <= l[k].path
    ensures forall i :: 0 <= i < k ==> !(request <= l[i].path)
  {
    if l == [] || request <= l[0].path then 0 else 1 + FirstMatch(l[1..], request)
  }

  function Cut<T>(l: seq<T>, k: nat): seq<T>
    requires k < |l|
  {
    l[..k] + l[k + 1..]
  }

  /** Removal compares only as many characters as the request has. */
  function Remove(l: seq<Entry>, request: string): seq<Entry> {
    var k := FirstMatch(l, request);
    if k < |l| then Cut(l, k) else l
  }

  predicate HasPath(l: seq<Entry>, path: string) {
    exists i :: 0 <= i < |l| && l[i].path == path
  }

  predicate HasIno(l: seq<Entry>, ino: nat) {
    exists i :: 0 <= i < |l| && l[i].ino == ino
  }

  predicate UniquePaths(l: seq<Entry>) {
    forall i, j :: 0 <= i < j < |l| ==> l[i].path != l[j].path
  }
}
