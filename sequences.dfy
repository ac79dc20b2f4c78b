/** Facts about sequence concatenation that the loop proofs share. */
module Sequences {
  lemma AppendAssoc<T>(a: seq<T>, b: seq<T>, c: seq<T>)
    ensures a + (b + c) == (a + b) + c
  {
  }

  /**
   * One step of a "done + todo" loop: when `todo` splits into `chunk` and
   * `rest`, moving `chunk` to `done` keeps `done + todo == total`.
   */
  lemma ShiftChunk<T>(done: seq<T>, todo: seq<T>, chunk: seq<T>, rest: seq<T>, total: seq<T>)
    requires done + todo == total && todo == chunk + rest
    ensures (done + chunk) + rest == total
  {
    AppendAssoc(done, chunk, rest);
  }
}
