/** Byte strings in lexicographic order, as ordered sets of arrays iterate them. */
module Bytes {
  import opened Ids

  predicate Less(a: seq<Byte>, b: seq<Byte>) {
    b != [] && (a == [] || a[0] < b[0] || (a[0] == b[0] && Less(a[1..], b[1..])))
  }

  lemma {:induction false} LessTotal(a: seq<Byte>, b: seq<Byte>)
    ensures a == b || Less(a, b) || Less(b, a)
    ensures !(Less(a, b) && Less(b, a)) && (a == b ==> !Less(a, b))
  {
    if a != [] && b != [] && a[0] == b[0] {
      LessTotal(a[1..], b[1..]);
      assert a == [a[0]] + a[1..] && b == [b[0]] + b[1..];
    }
  }

  lemma {:induction false} LessTransitive(a: seq<Byte>, b: seq<Byte>, c: seq<Byte>)
    requires Less(a, b) && Less(b, c)
    ensures Less(a, c)
  {
    if a != [] && a[0] == b[0] && b[0] == c[0] {
      LessTransitive(a[1..], b[1..], c[1..]);
    }
  }

  /** Each element precedes the next. */
  ghost predicate Ascending(q: seq<seq<Byte>>) {
    forall i :: 0 < i < |q| ==> Less(q[i - 1], q[i])
  }

  lemma {:induction false} FirstIsLeast(q: seq<seq<Byte>>, i: nat)
    requires Ascending(q) && 0 < i < |q|
    ensures Less(q[0], q[i])
  {
    if i > 1 {
      FirstIsLeast(q, i - 1);
      LessTransitive(q[0], q[i - 1], q[i]);
    }
  }

  lemma TailOf(q: seq<seq<Byte>>)
    requires Ascending(q) && q != []
    ensures Ascending(q[1..]) && Elements(q[1..]) == Elements(q) - {q[0]}
    ensures forall x :: x in Elements(q) && x != q[0] ==> Less(q[0], x)
  {
    forall x | x in q[1..] ensures x != q[0] && Less(q[0], x) {
      var i :| 0 <= i < |q[1..]| && q[1..][i] == x;
      FirstIsLeast(q, i + 1);
      LessTotal(q[0], x);
    }
    assert q == [q[0]] + q[1..];
  }

  /** Distinct elements: as many as the listing is long. */
  lemma {:induction false} AscendingCard(q: seq<seq<Byte>>)
    requires Ascending(q)
    ensures |Elements(q)| == |q|
  {
    if q != [] {
      TailOf(q);
      AscendingCard(q[1..]);
      assert Elements(q) == Elements(q[1..]) + {q[0]};
    }
  }

  /** An ascending listing is determined by its elements. */
  lemma {:induction false} AscendingUnique(p: seq<seq<Byte>>, q: seq<seq<Byte>>)
    requires Ascending(p) && Ascending(q) && Elements(p) == Elements(q)
    ensures p == q
  {
    AscendingCard(p);
    AscendingCard(q);
    if p != [] {
      assert p[0] in Elements(q) && q[0] in Elements(p);
      TailOf(p);
      TailOf(q);
      LessTotal(p[0], q[0]);
      AscendingUnique(p[1..], q[1..]);
      assert p == [p[0]] + p[1..] && q == [q[0]] + q[1..];
    }
  }

  lemma {:induction false} LeastExists(s: set<seq<Byte>>) returns (m: seq<Byte>)
    requires s != {}
    ensures m in s && forall x :: x in s && x != m ==> Less(m, x)
  {
    var y :| y in s;
    if s == {y} {
      return y;
    }
    var n := LeastExists(s - {y});
    LessTotal(n, y);
    m := if Less(n, y) then n else y;
    forall x | x in s && x != m ensures Less(m, x) {
      if x != y && m == y {
        if x != n {
          LessTransitive(y, n, x);
        }
      }
    }
  }

  /** The listing in which an ordered set iterates. */
  ghost function Listing(s: set<seq<Byte>>): (q: seq<seq<Byte>>)
    ensures Ascending(q) && Elements(q) == s
  {
    if s == {} then []
    else
      var w := LeastOf(s);
      var rest := Listing(s - {w});
      assert forall i :: 0 <= i < |rest| ==> rest[i] in Elements(rest);
      assert Elements([w] + rest) == {w} + Elements(rest);
      [w] + rest
  }

  ghost function LeastOf(s: set<seq<Byte>>): (m: seq<Byte>)
    requires s != {}
    ensures m in s && forall x :: x in s && x != m ==> Less(m, x)
  {
    assert exists m :: m in s && forall x :: x in s && x != m ==> Less(m, x) by { var m := LeastExists(s); }
    var m :| m in s && forall x :: x in s && x != m ==> Less(m, x);
    m
  }

  // ----- Byte strings as numbers -----

  function Weight(n: nat): nat {
    if n == 0 then 1 else 256 * Weight(n - 1)
  }

  /** A digest as a number, most significant byte first. */
  function BigEndian(b: seq<Byte>): nat {
    if b == [] then 0 else b[0] * Weight(|b| - 1) + BigEndian(b[1..])
  }

  lemma {:induction false} BigEndianBound(b: seq<Byte>)
    ensures BigEndian(b) < Weight(|b|)
  {
    if b != [] {
      BigEndianBound(b[1..]);
      MulMonotone(b[0], 255, Weight(|b| - 1));
    }
  }

  /** Digests of one length compare as byte strings exactly as they do as numbers. */
  lemma {:induction false} BigEndianOrder(a: seq<Byte>, b: seq<Byte>)
    requires |a| == |b|
    ensures Less(a, b) <==> BigEndian(a) < BigEndian(b)
  {
    if a != [] {
      var w := Weight(|a| - 1);
      BigEndianOrder(a[1..], b[1..]);
      BigEndianBound(a[1..]);
      BigEndianBound(b[1..]);
      if a[0] < b[0] {
        MulMonotone(a[0] + 1, b[0], w);
        assert (a[0] + 1) * w == a[0] * w + w;
      } else if b[0] < a[0] {
        MulMonotone(b[0] + 1, a[0], w);
        assert (b[0] + 1) * w == b[0] * w + w;
      }
    }
  }
}
