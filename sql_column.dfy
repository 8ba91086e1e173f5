/** Columns (sql_column.c): a named cell holding a tagged value, which is at
    the same time a node of a doubly linked sibling chain.

    A chain is described by a ghost sequence of its nodes in order;
    `ChainValid` ties that sequence to the real `prev`/`next` fields. The
    chain operations take the sequence and the position of the node they
    start from as ghost arguments. */
module SqlColumn {
  import opened Sql

  /** The column's `type` tag together with the union member it selects. */
  datatype Value =
    | NoValue
    | IntValue(i: Int64)
    | FloatValue(f: LongDouble)
    | StrValue(s: Option<string>)   // set_string(NULL) stores a NULL payload

  /** The owned heap text a value holds: its string payload, if any. */
  function Payload(v: Value): (m: multiset<string>)
    ensures |m| <= 1
    ensures |m| == 1 <==> v.StrValue? && v.s.Some?
  {
    if v.StrValue? then OptText(v.s) else multiset{}
  }

  /** No element occurs twice; for a sequence of nodes this is a fact about
      identities, so no heap change can break it. */
  ghost predicate Distinct<T>(c: seq<T>)
  {
    forall i, j :: 0 <= i < j < |c| ==> c[i] != c[j]
  }

  /** The nodes of `c`, in order, form one whole chain: no node twice, nothing
      before the first or after the last, and every `next` link matched by
      the reverse `prev` link. */
  ghost predicate ChainValid(c: seq<Column>)
    reads c
  {
    && Distinct(c)
    && (|c| > 0 ==> c[0].prev == null && c[|c| - 1].next == null)
    && (forall i :: 0 <= i < |c| - 1 ==> c[i].next == c[i + 1])
    && (forall i :: 0 < i < |c| ==> c[i].prev == c[i - 1])
  }

  /** The pointer-level reading of a consistent list: following a link and
      then the reverse link comes back, and never leaves the chain. */
  ghost predicate LinksAgree(c: seq<Column>)
    reads c
  {
    forall x :: x in c ==>
      && (x.next != null ==> x.next in c && x.next.prev == x)
      && (x.prev != null ==> x.prev in c && x.prev.next == x)
  }

  lemma ChainLinksAgree(c: seq<Column>)
    requires ChainValid(c)
    ensures LinksAgree(c)
  {
    forall x | x in c
      ensures x.next != null ==> x.next in c && x.next.prev == x
      ensures x.prev != null ==> x.prev in c && x.prev.next == x
    {
      var i :| 0 <= i < |c| && c[i] == x;
      if i + 1 < |c| { assert c[i + 1].prev == c[i]; }
      if i > 0 { assert c[i - 1].next == c[i]; }
    }
  }

  /** Following `next` from the first node of `c` visits every node, in
      order, and then reaches NULL: all a walk from the first node to the
      end relies on. */
  ghost predicate Forward(c: seq<Column>)
    reads c
  {
    && (|c| > 0 ==> c[|c| - 1].next == null)
    && (forall i :: 0 <= i < |c| - 1 ==> c[i].next == c[i + 1])
  }

  /** The successor of the node at index `j` of a forward walk. */
  lemma NextAt(c: seq<Column>, j: nat)
    requires Forward(c) && j < |c|
    ensures c[j].next == if j == |c| - 1 then null else c[j + 1]
  {
  }

  /** The links of the node at index `j` of a chain. */
  lemma LinksAt(c: seq<Column>, j: nat)
    requires ChainValid(c) && j < |c|
    ensures c[j].prev == if j == 0 then null else c[j - 1]
    ensures c[j].next == if j == |c| - 1 then null else c[j + 1]
  {
  }

  /** `x` placed at index `k` of `c`. */
  function Inserted<T>(c: seq<T>, x: T, k: nat): (r: seq<T>)
    requires k <= |c|
  {
    c[..k] + [x] + c[k..]
  }

  /** `c` without its element at index `k`. */
  function Removed<T>(c: seq<T>, k: nat): (r: seq<T>)
    requires k < |c|
  {
    c[..k] + c[k + 1..]
  }

  /** Inserting a node changes nothing else about the order: taking it out
      again gives back the chain, and the chain grows by exactly one. */
  lemma InsertedKeepsOrder(c: seq<Column>, x: Column, k: nat)
    requires k <= |c|
    ensures |Inserted(c, x, k)| == |c| + 1 && Inserted(c, x, k)[k] == x
    ensures Removed(Inserted(c, x, k), k) == c
  {
    var r := Inserted(c, x, k);
    assert r[..k] == c[..k];
    assert r[k + 1..] == c[k..];
  }

  /** The index at which add_sibbling places the new node when it starts
      from index `i` of a chain of `n` nodes with offset `pos`:
      `i + pos + 1`, clamped to the chain. */
  function SpliceIndex(i: nat, pos: int, n: nat): (k: nat)
  {
    if i + pos + 1 < 0 then 0 else if i + pos + 1 > n then n else i + pos + 1
  }

  /** Bookkeeping of taking a string payload where none was held: the copy
      of `x` is logged as obtained and is now live. */
  lemma Taken(duped: multiset<string>, freed: multiset<string>, named: multiset<string>,
              v: Value, x: Option<string>)
    requires !v.StrValue? && duped == freed + (named + Payload(v))
    ensures duped + OptText(x) == freed + (named + Payload(StrValue(x)))
  {
    assert Payload(v) == multiset{};
    ExchangeLast(duped, freed, multiset{}, OptText(x), named);
    assert freed + multiset{} == freed;
  }

  /** Releasing both owned texts of a column, one after the other. */
  lemma Released(duped: multiset<string>, freed: multiset<string>,
                 named: multiset<string>, held: multiset<string>)
    ensures (freed + named) + held == freed + (named + held)
    ensures duped == freed + (named + held) ==> duped == (freed + named) + held
  {
  }

  class Column {
    var name: Option<string>
    var value: Value
    var prev: Column?
    var next: Column?

    /** Texts this column obtained from sql_xstrdup, and texts it handed to
        sql_xfree (names and string payloads alike). */
    ghost var duped: multiset<string>
    ghost var freed: multiset<string>

    /** The owned texts still held: the name and the string payload. */
    ghost function Live(): (held: multiset<string>)
      reads this`name, this`value
    {
      OptText(name) + Payload(value)
    }

    /** No leak and no double free: everything obtained is either still held
        or has been freed exactly once. */
    ghost predicate Owns()
      reads this`name, this`value, this`duped, this`freed
    {
      duped == freed + Live()
    }

    /** sql_column_new: no name, type `none`, no siblings. */
    constructor ()
      ensures name == None && value == NoValue && prev == null && next == null
      ensures duped == multiset{} && freed == multiset{} && Owns()
    {
      name := None;
      value := NoValue;
      prev := null;
      next := null;
      duped := multiset{};
      freed := multiset{};
    }

    /** sql_column_set_name: the old name is freed, then a copy of `n`
        (NULL for NULL) becomes the name. */
    method SetName(n: Option<string>)
      modifies this`name, this`duped, this`freed
      ensures name == n
      ensures freed == old(freed) + OptText(old(name))
      ensures duped == old(duped) + OptText(n)
      ensures old(Owns()) ==> Owns()
    {
      ghost var gone := OptText(name);
      if name.Some? {
        name := None;
      }
      name := n;
      if old(Owns()) {
        Exchange(duped, freed, gone, OptText(n), Payload(value));
      }
      freed := freed + gone;
      duped := duped + OptText(n);
    }

    /** sql_column_set_none: a string payload is freed; the type becomes
        `none`. A second call releases nothing more. */
    method SetNone()
      modifies this`value, this`freed
      ensures value == NoValue
      ensures freed == old(freed) + Payload(old(value))
      ensures old(Owns()) ==> Owns()
    {
      ghost var gone := Payload(value);
      if value.StrValue? {
        value := NoValue;
      }
      value := NoValue;
      if old(Owns()) {
        ExchangeLast(duped, freed, gone, multiset{}, OptText(name));
        assert Live() == OptText(name) + multiset{};
      }
      freed := freed + gone;
    }

    /** sql_column_set_int: a string payload is freed first. */
    method SetInt(x: Int64)
      modifies this`value, this`freed
      ensures value == IntValue(x)
      ensures freed == old(freed) + Payload(old(value))
      ensures old(Owns()) ==> Owns()
    {
      if value.StrValue? {
        SetNone();
      }
      value := IntValue(x);
      assert Payload(value) == multiset{};
    }

    /** sql_column_set_float: a string payload is freed first. */
    method SetFloat(x: LongDouble)
      modifies this`value, this`freed
      ensures value == FloatValue(x)
      ensures freed == old(freed) + Payload(old(value))
      ensures old(Owns()) ==> Owns()
    {
      if value.StrValue? {
        SetNone();
      }
      value := FloatValue(x);
      assert Payload(value) == multiset{};
    }

    /** sql_column_set_string: a string payload is freed first, then a
        copy of `x` (NULL for NULL) becomes the payload. */
    method SetString(x: Option<string>)
      modifies this`value, this`duped, this`freed
      ensures value == StrValue(x)
      ensures freed == old(freed) + Payload(old(value))
      ensures duped == old(duped) + OptText(x)
      ensures old(Owns()) ==> Owns()
    {
      if value.StrValue? {
        SetNone();
      } else {
        assert freed + Payload(value) == freed;
      }
      TakeString(x);
    }

    /** The second step of sql_column_set_string: with no string payload
        held, a copy of `x` (NULL for NULL) becomes the payload. */
    method TakeString(x: Option<string>)
      requires !value.StrValue?
      modifies this`value, this`duped
      ensures value == StrValue(x)
      ensures duped == old(duped) + OptText(x)
      ensures old(Owns()) ==> Owns()
    {
      ghost var d0, v0 := duped, value;
      value := StrValue(x);
      duped := duped + OptText(x);
      if old(Owns()) {
        Taken(d0, freed, OptText(name), v0, x);
      }
    }

    /** sql_column_add_sibbling: from this node, at index `i` of chain `c`,
        walk `pos` steps (backwards while `pos` is negative, forwards while it
        is positive), stopping at either end; then link `q` in after the node
        reached, or before it when the walk ran off the front with steps
        left. `q` lands at index clamp(i + pos + 1, 0, |c|); every other node
        keeps its order and no field other than `prev`/`next` changes. */
    method AddSibling(q: Column, pos: Int32, ghost c: seq<Column>, ghost i: nat)
      requires ChainValid(c) && i < |c| && c[i] == this
      requires q !in c
      modifies c`prev, c`next, q`prev, q`next
      ensures ChainValid(Inserted(c, q, SpliceIndex(i, pos as int, |c|)))
    {
      var it: Column := this;
      var k := pos;
      ghost var j: nat := i;
      while it.prev != null && k < 0
        invariant ChainValid(c)
        invariant j <= i && it == c[j]
        invariant k as int + j == pos as int + i
        decreases j
      {
        k := k + 1;
        it := it.prev;
        j := j - 1;
      }
      LinksAt(c, j);
      while it.next != null && k > 0
        invariant ChainValid(c)
        invariant j < |c| && it == c[j]
        invariant k as int + j == pos as int + i
        invariant j == 0 || k >= 0
        decreases |c| - j
      {
        k := k - 1;
        it := it.next;
        j := j + 1;
        LinksAt(c, j);
      }
      LinksAt(c, j);
      ghost var at := if k >= 0 then j + 1 else j;
      assert at == SpliceIndex(i, pos as int, |c|);
      if k >= 0 {
        it.LinkAfter(q, c, j);
      } else {
        it.LinkBefore(q, c, j);
      }
    }

    /** The splice of add_sibbling when the walk ended with no steps left:
        the list becomes this node, `q`, this node's old `next`. */
    method LinkAfter(q: Column, ghost c: seq<Column>, ghost j: nat)
      requires ChainValid(c) && j < |c| && c[j] == this
      requires q !in c
      modifies this`next, q`prev, q`next, c`prev
      ensures ChainValid(Inserted(c, q, j + 1))
    {
      assert j + 1 < |c| ==> next == c[j + 1];
      var oldNext := next;
      next := q;
      q.prev := this;
      q.next := oldNext;
      if oldNext != null {
        oldNext.prev := q;
      }
      ghost var r := Inserted(c, q, j + 1);
      assert forall m :: 0 <= m <= j ==> r[m] == c[m];
      assert forall m :: j + 1 < m < |r| ==> r[m] == c[m - 1];
      forall m | 0 <= m < |r| - 1
        ensures r[m].next == r[m + 1]
      {
        if m < j {
          assert c[m] != this && c[m].next == old(c[m].next);
        } else if j + 1 < m {
          assert c[m - 1] != this && c[m - 1].next == old(c[m - 1].next);
        }
      }
      forall m | 0 < m < |r|
        ensures r[m].prev == r[m - 1]
      {
        if m <= j {
          assert c[m] != oldNext && c[m].prev == old(c[m].prev);
        } else if j + 2 < m {
          assert c[m - 1] != oldNext && c[m - 1].prev == old(c[m - 1].prev);
        }
      }
      assert j > 0 ==> c[0] != oldNext && c[0].prev == old(c[0].prev);
    }

    /** The splice of add_sibbling when the walk ran off the front with
        steps left: the list becomes this node's old `prev`, `q`, this node. */
    method LinkBefore(q: Column, ghost c: seq<Column>, ghost j: nat)
      requires ChainValid(c) && j < |c| && c[j] == this
      requires q !in c
      modifies this`prev, q`prev, q`next, c`next
      ensures ChainValid(Inserted(c, q, j))
    {
      assert j > 0 ==> prev == c[j - 1];
      var oldPrev := prev;
      prev := q;
      q.next := this;
      q.prev := oldPrev;
      if oldPrev != null {
        oldPrev.next := q;
      }
      ghost var r := Inserted(c, q, j);
      assert forall m :: 0 <= m < j ==> r[m] == c[m];
      assert forall m :: j < m < |r| ==> r[m] == c[m - 1];
      forall m | 0 <= m < |r| - 1
        ensures r[m].next == r[m + 1]
      {
        if m + 1 < j {
          assert c[m] != oldPrev && c[m].next == old(c[m].next);
        } else if j < m {
          assert c[m - 1] != oldPrev && c[m - 1].next == old(c[m - 1].next);
        }
      }
      forall m | 0 < m < |r|
        ensures r[m].prev == r[m - 1]
      {
        if m < j {
          assert c[m] != this && c[m].prev == old(c[m].prev);
        } else if j + 1 < m {
          assert c[m - 1] != this && c[m - 1].prev == old(c[m - 1].prev);
        }
      }
      assert j + 1 < |c| ==> c[|c| - 1] != oldPrev && c[|c| - 1].next == old(c[|c| - 1].next);
    }

    /** sql_column_del_sibbling: the neighbours are linked past this node,
        so the chain seen from them is `c` without it; this node's own
        `prev` and `next` are left as they were. */
    method DelSibling(ghost c: seq<Column>, ghost i: nat)
      requires ChainValid(c) && i < |c| && c[i] == this
      modifies c`prev, c`next
      ensures ChainValid(Removed(c, i))
      ensures prev == old(prev) && next == old(next)
    {
      assert i > 0 ==> prev == c[i - 1];
      assert i + 1 < |c| ==> next == c[i + 1];
      if prev != null {
        prev.next := next;
      }
      if next != null {
        next.prev := prev;
      }
    }

    /** sql_column_get_first_sibbling: the chain's first node, the one
        without a `prev`. */
    method FirstSibling(ghost c: seq<Column>, ghost i: nat) returns (r: Column)
      requires ChainValid(c) && i < |c| && c[i] == this
      ensures r == c[0] && r.prev == null
    {
      r := this;
      ghost var j: nat := i;
      LinksAt(c, j);
      while r.prev != null
        invariant j < |c| && r == c[j]
        invariant r.prev == if j == 0 then null else c[j - 1]
        decreases j
      {
        r := r.prev;
        j := j - 1;
        LinksAt(c, j);
      }
    }

    /** sql_column_get_last_sibbling: the chain's last node, the one
        without a `next`. */
    method LastSibling(ghost c: seq<Column>, ghost i: nat) returns (r: Column)
      requires ChainValid(c) && i < |c| && c[i] == this
      ensures r == c[|c| - 1] && r.next == null
    {
      r := this;
      ghost var j: nat := i;
      LinksAt(c, j);
      while r.next != null
        invariant j < |c| && r == c[j]
        invariant r.next == if j == |c| - 1 then null else c[j + 1]
        decreases |c| - j
      {
        r := r.next;
        j := j + 1;
        LinksAt(c, j);
      }
    }

    /** sql_column_free: the name and a string payload are freed and the
        node is unlinked from its chain, after which it holds no owned text. */
    method Free(ghost c: seq<Column>, ghost i: nat)
      requires ChainValid(c) && i < |c| && c[i] == this
      modifies this`name, this`value, this`duped, this`freed, c`prev, c`next
      ensures name == None && value == NoValue
      ensures prev == old(prev) && next == old(next)
      ensures ChainValid(Removed(c, i))
      ensures freed == old(freed) + old(Live()) && duped == old(duped)
      ensures old(Owns()) ==> duped == freed
    {
      ghost var n0, v0 := name, value;
      SetName(None);
      SetNone();
      DelSibling(c, i);
      Released(old(duped), old(freed), OptText(n0), Payload(v0));
    }
  }
}
