/** `BufferList`: the chunks that a `Readable` holds, as a linked list. Chunks are
  * values here; `_getBuffer` and `concat` copy them into a new array, `_getString`
  * and `join` concatenate. */
module BufferLists {
  import opened Basics
  import opened Utf8
  import opened Chunks

  /** The chunks left when `n` items are taken from the front. */
  function Drop<T>(chunks: seq<seq<T>>, n: nat): seq<seq<T>> {
    if chunks == [] then []
    else if n < |chunks[0]| then [chunks[0][n..]] + chunks[1..]
    else if n == |chunks[0]| then chunks[1..]
    else Drop(chunks[1..], n - |chunks[0]|)
  }

  /** Nothing is lost: what is left is the rest of the text. */
  lemma {:induction false} DropConcat<T>(chunks: seq<seq<T>>, n: nat)
    requires n <= |Concat(chunks)|
    ensures Concat(Drop(chunks, n)) == Concat(chunks)[n..]
  {
    if chunks != [] {
      var c, rest := chunks[0], chunks[1..];
      if n < |c| {
        assert ([c[n..]] + rest)[1..] == rest;
        assert (c + Concat(rest))[n..] == c[n..] + Concat(rest);
      } else if n == |c| {
        assert (c + Concat(rest))[n..] == Concat(rest);
      } else {
        DropConcat(rest, n - |c|);
        assert (c + Concat(rest))[n..] == Concat(rest)[n - |c|..];
      }
    }
  }

  lemma FirstChunk<T>(chunks: seq<seq<T>>, n: nat)
    requires chunks != [] && |chunks[0]| < n
    ensures chunks[0] + Concat(chunks[1..]) == Concat(chunks)
    ensures Drop(chunks, n) == Drop(chunks[1..], n - |chunks[0]|)
  {}

  lemma FromFirst<T>(chunks: seq<seq<T>>, n: nat)
    requires chunks != [] && n <= |Concat(chunks)|
    ensures n <= |chunks[0]| ==> Concat(chunks)[..n] == chunks[0][..n]
    ensures n < |chunks[0]| ==> Drop(chunks, n) == [chunks[0][n..]] + chunks[1..]
    ensures n == |chunks[0]| ==> Drop(chunks, n) == chunks[1..] && chunks[0][..n] == chunks[0]
  {}

  lemma MoreChunks<T>(s: seq<T>, rest: seq<seq<T>>, left: nat)
    requires 0 < left && |s| + left <= |s + Concat(rest)|
    ensures rest != []
  {}

  lemma Ends<T>(chunks: seq<seq<T>>)
    ensures Concat<T>([]) == [] && [] + Concat(chunks) == Concat(chunks) && chunks[0..] == chunks
  {}

  lemma Fits<T>(s: seq<T>, rest: seq<seq<T>>)
    requires rest != []
    ensures |s| + |rest[0]| <= |s + Concat(rest)|
  {}

  /** One more chunk, or part of it. */
  lemma NextChunk<T>(s: seq<T>, rest: seq<seq<T>>, left: nat)
    requires rest != []
    ensures (s + rest[0]) + Concat(rest[1..]) == s + Concat(rest)
    ensures left > |rest[0]| ==> Drop(rest, left) == Drop(rest[1..], left - |rest[0]|)
    ensures left == |rest[0]| ==> Drop(rest, left) == rest[1..] && (s + Concat(rest))[..|s| + left] == s + rest[0]
    ensures left < |rest[0]| ==>
      Drop(rest, left) == [rest[0][left..]] + rest[1..] && (s + Concat(rest))[..|s| + left] == s + rest[0][..left]
  {
    Assoc(s, rest[0], Concat(rest[1..]));
  }

  class Node<T> {
    var data: seq<T>
    var next: Node?<T>

    constructor (data: seq<T>, next: Node?<T>)
      ensures this.data == data && this.next == next
    {
      this.data, this.next := data, next;
    }
  }

  class BufferList<T(0)> {
    var head: Node?<T>
    var tail: Node?<T>
    var length: nat
    /** The nodes from the head on, and their chunks. */
    ghost var nodes: seq<Node<T>>
    ghost var chunks: seq<seq<T>>

    ghost predicate Valid()
      reads this, nodes
    {
      length == |nodes| && Shape()
    }

    ghost predicate Shape()
      reads this`head, this`tail, this`nodes, this`chunks, nodes
    {
      && |nodes| == |chunks|
      && head == (if nodes == [] then null else nodes[0])
      && tail == (if nodes == [] then null else nodes[|nodes| - 1])
      && Linked(nodes, chunks)
    }

    constructor ()
      ensures Valid() && nodes == [] && chunks == []
    {
      head, tail, length, nodes, chunks := null, null, 0, [], [];
    }

    /** `push` */
    method Push(data: seq<T>)
      requires Valid()
      modifies this, nodes
      ensures Valid() && chunks == old(chunks) + [data]
      ensures |nodes| == |old(nodes)| + 1 && nodes[..|old(nodes)|] == old(nodes) && fresh(nodes[|old(nodes)|])
    {
      var entry := new Node(data, null);
      if length > 0 {
        tail.next := entry;
      } else {
        head := entry;
      }
      tail := entry;
      length := length + 1;
      nodes, chunks := nodes + [entry], chunks + [data];
    }

    /** `shift`, of a list that is not empty. */
    method Shift() returns (data: seq<T>)
      requires Valid() && length > 0
      modifies this
      ensures Valid() && data == old(chunks)[0] && chunks == old(chunks)[1..] && nodes == old(nodes)[1..]
    {
      data := head.data;
      if length == 1 {
        head, tail := null, null;
      } else {
        head := head.next;
      }
      length := length - 1;
      nodes, chunks := nodes[1..], chunks[1..];
    }

    /** `clear` */
    method Clear()
      modifies this
      ensures Valid() && chunks == [] && nodes == []
    {
      head, tail, length := null, null, 0;
      nodes, chunks := [], [];
    }

    /** `join("")` */
    method Join() returns (s: seq<T>)
      requires Valid()
      ensures s == Concat(chunks)
    {
      if length == 0 {
        return [];
      }
      var p := head;
      s := p.data;
      ghost var i := 0;
      while p.next != null
        invariant i < |nodes| && p == nodes[i] && s + Concat(chunks[i + 1..]) == Concat(chunks)
        decreases |nodes| - i
      {
        p, i := p.next, i + 1;
        Assoc(s, chunks[i], Concat(chunks[i + 1..]));
        s := s + p.data;
      }
    }

    /** The head moves past node `p`, number `c - 1`. */
    method HeadAfter(p: Node<T>, ghost c: nat)
      requires Shape() && 1 <= c <= |nodes| && p == nodes[c - 1]
      modifies this`head, this`tail, this`nodes, this`chunks
      ensures Shape() && nodes == old(nodes)[c..] && chunks == old(chunks)[c..]
    {
      if p.next != null {
        head := p.next;
      } else {
        head, tail := null, null;
      }
      nodes, chunks := nodes[c..], chunks[c..];
    }

    /** The head moves to node `p`, number `c`, which loses `k` items. */
    method CutHead(p: Node<T>, ghost c: nat, k: nat)
      requires Shape() && c < |nodes| && p == nodes[c] && k <= |p.data|
      modifies this`head, this`nodes, this`chunks, p`data
      ensures Shape() && nodes == old(nodes)[c..] && chunks == [old(chunks)[c][k..]] + old(chunks)[c + 1..]
    {
      head := p;
      p.data := p.data[k..];
      nodes, chunks := nodes[c..], [p.data] + chunks[c + 1..];
    }

    /** `_getString`: more than the first chunk. */
    method GetString(n: nat) returns (s: seq<T>)
      requires Valid() && length > 0 && |chunks[0]| < n <= |Concat(chunks)|
      modifies this, nodes
      ensures Valid() && s == Concat(old(chunks))[..n] && chunks == Drop(old(chunks), n)
      ensures exists k :: 0 <= k <= |old(nodes)| && nodes == old(nodes)[k..]
    {
      hide Drop, Concat, Linked, Shape;
      NodeAt(this, 0);
      var p, c, left := head, 1, n;
      s := p.data;
      left := left - |s|;
      ghost var all := chunks;
      FirstChunk(chunks, n);
      MoreChunks(s, chunks[1..], left);
      while p.next != null
        invariant 1 <= c <= |nodes| && p == nodes[c - 1]
        invariant nodes == old(nodes) && chunks == all && Valid()
        invariant left > 0 && |s| + left == n && c < |nodes| && p.next == nodes[c]
        invariant s + Concat(chunks[c..]) == Concat(chunks) && Drop(chunks[c..], left) == Drop(chunks, n)
        decreases |nodes| - c
      {
        p := p.next;
        NodeAt(this, c);
        var str := p.data;
        assert str == chunks[c] && chunks[c..][0] == str && chunks[c..][1..] == chunks[c + 1..];
        NextChunk(s, chunks[c..], left);
        var nb := if left > |str| then |str| else left;
        s := s + if nb == |str| then str else str[..left];
        left := left - nb;
        if left == 0 {
          if nb == |str| {
            c := c + 1;
            HeadAfter(p, c);
          } else {
            CutHead(p, c, nb);
          }
          break;
        }
        c := c + 1;
        MoreChunks(s, chunks[c..], left);
      }
      length := length - c;
    }

    /** The loop of `_getBuffer`: copies `n` items, more than the first chunk, and
      * ends at node `p`, number `c`, with `nb` items of it copied. */
    method CopyChunks(t: array<T>, n: nat) returns (p: Node<T>, c: nat, nb: nat)
      requires Valid() && length > 0 && t.Length == n && |chunks[0]| < n <= |Concat(chunks)|
      modifies t
      ensures Valid() && t[..] == Concat(chunks)[..n]
      ensures 1 <= c < |nodes| && p == nodes[c] && nb <= |p.data|
      ensures Drop(chunks, n) == (if nb < |p.data| then [p.data[nb..]] else []) + chunks[c + 1..]
    {
      hide Drop, Concat, Linked, Shape;
      NodeAt(this, 0);
      var left: nat;
      p, c, left := head, 1, n;
      CopyTo(p.data, t, 0, |p.data|);
      left := left - |p.data|;
      ghost var s := p.data;
      FirstChunk(chunks, n);
      MoreChunks(s, chunks[1..], left);
      while p.next != null
        invariant 1 <= c < |nodes| && p == nodes[c - 1] && p.next == nodes[c]
        invariant Valid() && left > 0 && |s| + left == n && t[..n - left] == s
        invariant s + Concat(chunks[c..]) == Concat(chunks) && Drop(chunks[c..], left) == Drop(chunks, n)
        decreases |nodes| - c
      {
        p := p.next;
        NodeAt(this, c);
        var data := p.data;
        assert data == chunks[c] && chunks[c..][0] == data && chunks[c..][1..] == chunks[c + 1..];
        NextChunk(s, chunks[c..], left);
        nb := if left > |data| then |data| else left;
        CopyTo(data, t, n - left, nb);
        left := left - nb;
        if left == 0 {
          assert nb == |data| ==> data[..nb] == data && [] + chunks[c + 1..] == chunks[c + 1..];
          assert t[..n] == t[..];
          return;
        }
        assert data[..nb] == data;
        s := s + data;
        c := c + 1;
        MoreChunks(s, chunks[c..], left);
      }
    }

    /** `_getBuffer`: the same, copied into a new array. */
    method GetBuffer(n: nat) returns (t: array<T>)
      requires Valid() && length > 0 && |chunks[0]| < n <= |Concat(chunks)|
      modifies this, nodes
      ensures Valid() && fresh(t) && t[..] == Concat(old(chunks))[..n] && chunks == Drop(old(chunks), n)
      ensures exists k :: 0 <= k <= |old(nodes)| && nodes == old(nodes)[k..]
    {
      hide Drop, Concat, Linked, Shape;
      t := new T[n];
      var p, c, nb := CopyChunks(t, n);
      NodeAt(this, c);
      if nb == |p.data| {
        c := c + 1;
        HeadAfter(p, c);
        assert [] + chunks == chunks;
      } else {
        CutHead(p, c, nb);
      }
      length := length - c;
    }

    /** `concat(n)`, where `n` is the number of items. */
    method ConcatAll(n: nat) returns (t: array<T>)
      requires Valid() && n == |Concat(chunks)|
      ensures fresh(t) && t[..] == Concat(chunks)
    {
      hide Linked, Shape, Concat, Drop;
      t := new T[n];
      if length > 0 {
        NodeAt(this, 0);
      }
      HeadIs(this);
      Ends(chunks);
      var p, a := head, 0;
      ghost var i := 0;
      while p != null
        invariant i <= |nodes| && p == (if i < |nodes| then nodes[i] else null)
        invariant 0 <= a <= n && t[..a] + Concat(chunks[i..]) == Concat(chunks)
        decreases |nodes| - i
      {
        NodeAt(this, i);
        ghost var s := t[..a];
        Fits(s, chunks[i..]);
        NextChunk(s, chunks[i..], 0);
        assert chunks[i..][1..] == chunks[i + 1..];
        CopyTo(p.data, t, a, |p.data|);
        a := a + |p.data|;
        p, i := p.next, i + 1;
      }
      assert chunks[i..] == [] && t[..a] + [] == t[..a];
      assert t[..a] == t[..];
    }

    /** `first`, of a list that is not empty. */
    method First() returns (data: seq<T>)
      requires Valid() && length > 0
      ensures data == chunks[0]
    {
      data := head.data;
    }

    /** `consume`: `n` items from the front. */
    method Consume(n: nat, hasStrings: bool) returns (s: seq<T>)
      requires Valid() && length > 0 && n <= |Concat(chunks)|
      modifies this, nodes
      ensures Valid() && s == Concat(old(chunks))[..n] && chunks == Drop(old(chunks), n)
      ensures exists k :: 0 <= k <= |old(nodes)| && nodes == old(nodes)[k..]
    {
      hide Drop, Concat;
      NodeAt(this, 0);
      FromFirst(chunks, n);
      if n < |head.data| {
        s := head.data[..n];
        head.data := head.data[n..];
        chunks := [head.data] + chunks[1..];
        assert nodes == old(nodes)[0..];
      } else if n == |head.data| {
        s := Shift();
      } else if hasStrings {
        s := GetString(n);
      } else {
        var t := GetBuffer(n);
        s := t[..];
      }
    }
  }

  /** `copy`: the first `k` items of `x` to `t[at..]`. */
  method CopyTo<T>(x: seq<T>, t: array<T>, at: nat, k: nat)
    requires k <= |x| && at + k <= t.Length
    modifies t
    ensures t[..at + k] == old(t[..at]) + x[..k]
  {
    for i := 0 to k
      invariant t[..at + i] == old(t[..at]) + x[..i]
    {
      t[at + i] := x[i];
    }
  }

  lemma HeadIs<T(0)>(b: BufferList<T>)
    requires b.Shape()
    ensures |b.nodes| == |b.chunks| && b.head == if b.nodes == [] then null else b.nodes[0]
  {}

  lemma NodeAt<T(0)>(b: BufferList<T>, i: nat)
    requires b.Shape() && i < |b.nodes|
    ensures |b.nodes| == |b.chunks| && b.nodes[i].data == b.chunks[i] && b.head == b.nodes[0]
    ensures b.nodes[i].next == if i + 1 < |b.nodes| then b.nodes[i + 1] else null
  {}

  /** Each node holds its chunk and points to the next one. */
  ghost predicate Linked<T>(nodes: seq<Node<T>>, chunks: seq<seq<T>>)
    requires |nodes| == |chunks|
    reads nodes
  {
    && (forall i :: 0 <= i < |nodes| ==> nodes[i].data == chunks[i])
    && (forall i :: 0 <= i < |nodes| - 1 ==> nodes[i].next == nodes[i + 1])
    && (nodes != [] ==> nodes[|nodes| - 1].next == null)
    && (forall i, j :: 0 <= i < j < |nodes| ==> nodes[i] != nodes[j])
  }
}
