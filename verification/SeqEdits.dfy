/** Two edits of a sequence, as the vectors and fragment arrays of the library perform them, and
    what a sequence holds. */
module SeqEdits {

  function InsertAt<T>(s: seq<T>, k: int, z: T): seq<T>
    requires 0 <= k <= |s|
  {
    s[..k] + [z] + s[k..]
  }

  function RemoveAt<T>(s: seq<T>, k: int): seq<T>
    requires 0 <= k < |s|
  {
    s[..k] + s[k + 1..]
  }

  ghost predicate NoDup<T>(s: seq<T>) {
    forall i, j :: 0 <= i < j < |s| ==> s[i] != s[j]
  }

  ghost function Elems<T>(s: seq<T>): set<T> {
    set e | e in s
  }
}
