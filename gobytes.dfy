/** Byte strings as Go holds them in `string` and `[]byte`, and the few
    functions of Go's `bytes` and `strings` packages that the diff parser
    and the logger call: prefix test, first-occurrence search and a split
    into at most two parts. */
module GoBytes {

  newtype byte = b: int | 0 <= b < 256

  /** A Go string or byte slice: `len` counts its bytes. */
  type Bytes = seq<byte>

  datatype Option<T> = None | Some(value: T)

  /** The bytes of an ASCII literal. */
  function Ascii(s: string): (r: Bytes)
    requires forall i :: 0 <= i < |s| ==> s[i] as int < 256
    ensures |r| == |s|
    ensures forall i :: 0 <= i < |s| ==> r[i] as int == s[i] as int
  {
    seq(|s|, i requires 0 <= i < |s| => s[i] as int as byte)
  }

  const Space: byte := 32
  const Newline: byte := 10

  lemma AppendTake<T>(a: seq<T>, b: seq<T>)
    ensures (a + b)[..|a|] == a
  {
  }

  lemma AppendDrop<T>(a: seq<T>, b: seq<T>)
    ensures (a + b)[|a|..] == b
  {
  }

  lemma TakeDrop<T>(s: seq<T>, k: nat)
    requires k <= |s|
    ensures s[..k] + s[k..] == s
  {
  }

  lemma SplitAround<T>(s: seq<T>, i: nat)
    requires i < |s|
    ensures s == s[..i] + [s[i]] + s[i + 1..]
  {
  }

  lemma AppendAssoc<T>(a: seq<T>, b: seq<T>, c: seq<T>)
    ensures a + b + c == a + (b + c)
  {
  }

  /** `strings.HasPrefix` / `bytes.HasPrefix`. */
  predicate HasPrefix(s: Bytes, prefix: Bytes)
  {
    |prefix| <= |s| && s[..|prefix|] == prefix
  }

  /** `sep` sits in `s` starting at byte `j`. */
  predicate OccursAt(s: Bytes, sep: Bytes, j: int)
  {
    0 <= j && j + |sep| <= |s| && s[j..j + |sep|] == sep
  }

  ghost predicate Contains(s: Bytes, sep: Bytes)
  {
    exists j :: OccursAt(s, sep, j)
  }

  lemma OccursAtTail(s: Bytes, sep: Bytes, j: int)
    requires |s| > 0 && 0 <= j
    ensures OccursAt(s, sep, j + 1) <==> OccursAt(s[1..], sep, j)
  {
    if j + 1 + |sep| <= |s| {
      assert s[j + 1..j + 1 + |sep|] == s[1..][j..j + |sep|];
    }
  }

  /** `bytes.Index` / `strings.Index`: the index of the first occurrence of
      `sep` in `s`, or -1 when there is none. */
  function Index(s: Bytes, sep: Bytes): (r: int)
    ensures -1 <= r
    ensures r >= 0 ==> OccursAt(s, sep, r)
    ensures forall j :: 0 <= j && (r < 0 || j < r) ==> !OccursAt(s, sep, j)
    decreases |s|
  {
    if |s| < |sep| then -1
    else if s[..|sep|] == sep then 0
    else
      var k := Index(s[1..], sep);
      assert s[0..|sep|] == s[..|sep|];
      assert forall j :: 1 <= j ==> (OccursAt(s, sep, j) <==> OccursAt(s[1..], sep, j - 1)) by {
        forall j | 1 <= j
          ensures OccursAt(s, sep, j) <==> OccursAt(s[1..], sep, j - 1)
        {
          OccursAtTail(s, sep, j - 1);
        }
      }
      if k < 0 then -1 else k + 1
  }

  /** An occurrence that ends within the first `m` bytes is one in `s[..m]`. */
  lemma OccursInPrefix(s: Bytes, sep: Bytes, j: int, m: nat)
    requires m <= |s| && j + |sep| <= m
    ensures OccursAt(s[..m], sep, j) <==> OccursAt(s, sep, j)
  {
    if 0 <= j {
      assert s[..m][j..j + |sep|] == s[j..j + |sep|];
    }
  }

  /** When `a + sep` holds no occurrence of `sep` that starts inside `a`,
      the first occurrence in `a + sep + b` is the one right after `a`. */
  lemma {:induction false} IndexAfter(a: Bytes, sep: Bytes, b: Bytes)
    requires forall j :: 0 <= j < |a| ==> !OccursAt(a + sep, sep, j)
    ensures Index(a + sep + b, sep) == |a|
  {
    var s := a + sep + b;
    AppendTake(a + sep, b);
    AppendDrop(a, sep);
    assert s[|a|..|a| + |sep|] == s[..|a| + |sep|][|a|..];
    assert OccursAt(s, sep, |a|);
    forall j | 0 <= j < |a| ensures !OccursAt(s, sep, j) {
      OccursInPrefix(s, sep, j, |a| + |sep|);
    }
  }

  /** A one-byte separator occurs exactly where that byte is. */
  lemma OccursSingle(s: Bytes, x: byte, j: int)
    requires 0 <= j < |s|
    ensures OccursAt(s, [x], j) <==> s[j] == x
  {
    assert s[j..j + 1] == [s[j]];
  }

  /** `Index` with a one-byte separator finds the first place of that byte. */
  lemma IndexSingle(s: Bytes, x: byte)
    ensures var i := Index(s, [x]);
      && (i < 0 ==> x !in s)
      && (i >= 0 ==> i < |s| && s[i] == x && x !in s[..i])
  {
    forall j | 0 <= j < |s| ensures OccursAt(s, [x], j) <==> s[j] == x {
      OccursSingle(s, x, j);
    }
  }

  /** `strings.SplitN(s, " ", 2)`: `s` cut at its first space, or `[s]`
      when it has none. */
  function SplitFirstSpace(s: Bytes): (parts: seq<Bytes>)
    ensures |parts| == 1 || |parts| == 2
    ensures |parts| == 1 ==> parts[0] == s && Space !in s
    ensures |parts| == 2 ==> s == parts[0] + [Space] + parts[1] && Space !in parts[0]
  {
    var i := Index(s, [Space]);
    IndexSingle(s, Space);
    if i < 0 then [s]
    else
      SplitAround(s, i);
      [s[..i], s[i + 1..]]
  }

  /** Splitting undoes joining with a space, as long as the first part
      holds no space. */
  lemma {:induction false} SplitFirstSpaceJoin(a: Bytes, b: Bytes)
    requires Space !in a
    ensures SplitFirstSpace(a + [Space] + b) == [a, b]
  {
    forall j | 0 <= j < |a| ensures !OccursAt(a + [Space], [Space], j) {
      OccursSingle(a + [Space], Space, j);
    }
    IndexAfter(a, [Space], b);
    AppendAssoc(a, [Space], b);
    AppendTake(a, [Space] + b);
    AppendDrop(a + [Space], b);
  }
}
