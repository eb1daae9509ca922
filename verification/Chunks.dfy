/** Strings that arrive in chunks. */
module Chunks {
  import opened Basics

  function Concat<T>(chunks: seq<seq<T>>): seq<T> {
    if chunks == [] then [] else chunks[0] + Concat(chunks[1..])
  }

  lemma {:induction false} ConcatMore<T>(chunks: seq<seq<T>>, i: nat)
    requires i < |chunks|
    ensures Concat(chunks[..i + 1]) == Concat(chunks[..i]) + chunks[i]
  {
    if i == 0 {
      assert chunks[..1] == [chunks[0]];
    } else {
      var rest := chunks[1..];
      assert chunks[..i + 1][1..] == rest[..i] && chunks[..i][1..] == rest[..i - 1];
      ConcatMore(rest, i - 1);
      Assoc(chunks[0], Concat(rest[..i - 1]), chunks[i]);
    }
  }
}
