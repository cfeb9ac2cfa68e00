/** Elements with their embedded hash handles, and what it means for them to form a list. */
module Handles {

  /** An application element with its embedded hash handle. */
  class Elem<T> {
    const key: string
    var data: T
    var hashv: nat
    var prev: Elem?<T>
    var next: Elem?<T>
    var hhPrev: Elem?<T>
    var hhNext: Elem?<T>

    constructor (key: string, data: T)
      ensures this.key == key && this.data == data
    {
      this.key, this.data := key, data;
      hashv, prev, next, hhPrev, hhNext := 0, null, null, null, null;
    }
  }

  /** The element at position `i`, or NULL off either end. */
  ghost function At<T>(s: seq<Elem<T>>, i: int): Elem?<T> {
    if 0 <= i < |s| then s[i] else null
  }

  ghost function Elems<T>(s: seq<Elem<T>>): set<Elem<T>> {
    set x | x in s
  }

  ghost predicate ListLinked<T>(s: seq<Elem<T>>)
    reads Elems(s)`prev, Elems(s)`next
  {
    forall i {:trigger s[i].prev} {:trigger s[i].next} | 0 <= i < |s| ::
      s[i].prev == At(s, i - 1) && s[i].next == At(s, i + 1)
  }
}
