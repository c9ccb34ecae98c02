/**
  The order in which field codes and parameter groups are listed: two stable sorts, first by name,
  then by priority.
 */
module ParamOrder {

  /** Strings compared character by character, a prefix first. */
  predicate LexLe(a: string, b: string)
  {
    a == "" || (b != "" && (a[0] < b[0] || (a[0] == b[0] && LexLe(a[1..], b[1..]))))
  }

  lemma {:induction false} LexTotal(a: string, b: string)
    ensures LexLe(a, b) || LexLe(b, a)
    ensures LexLe(a, b) && LexLe(b, a) ==> a == b
  {
    if a == "" || b == "" {
    } else {
      LexTotal(a[1..], b[1..]);
      assert a == [a[0]] + a[1..] && b == [b[0]] + b[1..];
    }
  }

  lemma {:induction false} LexTransitive(a: string, b: string, c: string)
    requires LexLe(a, b) && LexLe(b, c)
    ensures LexLe(a, c)
  {
    if a != "" && a[0] == b[0] == c[0] {
      LexTransitive(a[1..], b[1..], c[1..]);
    }
  }

  /** a comes before b: at the first place where they differ it has the smaller character, or it ends there. */
  lemma {:induction false} LexLeIff(a: string, b: string)
    ensures LexLe(a, b) <==> a <= b || exists i: nat :: DifferFirst(a, b, i) && a[i] < b[i]
  {
    if a == "" {
    } else if b == "" || a[0] != b[0] {
      if b != "" {
        assert DifferFirst(a, b, 0);
        if i: nat :| DifferFirst(a, b, i) && a[i] < b[i] {
          assert i == 0;
        }
      }
    } else {
      LexLeIff(a[1..], b[1..]);
      assert a <= b <==> a[1..] <= b[1..] by {
        assert a == [a[0]] + a[1..] && b == [b[0]] + b[1..];
      }
      forall i: nat
        ensures DifferFirst(a, b, i + 1) <==> DifferFirst(a[1..], b[1..], i)
      {
        DifferLater(a, b, i);
      }
      if i: nat :| DifferFirst(a, b, i) && a[i] < b[i] {
        assert i > 0;
        assert DifferFirst(a[1..], b[1..], i - 1);
      }
      if i: nat :| DifferFirst(a[1..], b[1..], i) && a[1..][i] < b[1..][i] {
        assert DifferFirst(a, b, i + 1);
      }
    }
  }

  /** a and b agree in front of place i, and differ there. */
  predicate DifferFirst(a: string, b: string, i: nat)
  {
    i < |a| && i < |b| && a[i] != b[i] && a[..i] == b[..i]
  }

  lemma DifferLater(a: string, b: string, i: nat)
    requires a != "" && b != "" && a[0] == b[0]
    ensures DifferFirst(a, b, i + 1) <==> DifferFirst(a[1..], b[1..], i)
  {
    if i < |a[1..]| && i < |b[1..]| {
      assert a[..i + 1] == [a[0]] + a[1..][..i] && b[..i + 1] == [b[0]] + b[1..][..i];
      assert a[..i + 1][1..] == a[1..][..i] && b[..i + 1][1..] == b[1..][..i];
    }
  }

  //
  // Stable sorting
  //

  /** Places x in front of the first element that need not come before it. */
  function Insert(before: (string, string) -> bool, x: string, ys: seq<string>): (r: seq<string>)
    ensures multiset(r) == multiset{x} + multiset(ys)
  {
    if ys == [] || !before(ys[0], x) then [x] + ys
    else
      assert ys == [ys[0]] + ys[1..];
      [ys[0]] + Insert(before, x, ys[1..])
  }

  /** What sorted() does for the strict order before: elements it does not tell apart keep their order. */
  function StableSort(before: (string, string) -> bool, xs: seq<string>): (r: seq<string>)
    ensures multiset(r) == multiset(xs)
  {
    if xs == [] then []
    else
      assert xs == [xs[0]] + xs[1..];
      Insert(before, xs[0], StableSort(before, xs[1..]))
  }

  function ByName(): (string, string) -> bool
  {
    (a, b) => LexLe(a, b) && a != b
  }

  function ByPriority(priority: string -> int): (string, string) -> bool
  {
    (a, b) => priority(a) > priority(b)
  }

  /** Sorted by name, then by priority with reverse=True, which keeps sorting stable. */
  function Arrange(priority: string -> int, xs: seq<string>): seq<string>
  {
    StableSort(ByPriority(priority), StableSort(ByName(), xs))
  }

  predicate Sorted(le: (string, string) -> bool, xs: seq<string>)
  {
    forall i, j | 0 <= i < j < |xs| :: le(xs[i], xs[j])
  }

  /** Higher priority first, and by name within a priority. */
  function Listed(priority: string -> int): (string, string) -> bool
  {
    (a, b) => priority(a) > priority(b) || (priority(a) == priority(b) && LexLe(a, b))
  }

  lemma SortedFirst(le: (string, string) -> bool, x: string, ys: seq<string>)
    requires Sorted(le, ys) && forall y | y in ys :: le(x, y)
    ensures Sorted(le, [x] + ys)
  {
    var r := [x] + ys;
    forall i, j | 0 <= i < j < |r|
      ensures le(r[i], r[j])
    {
      if i > 0 {
        assert r[i] == ys[i - 1] && r[j] == ys[j - 1];
      }
    }
  }

  lemma SortedTail(le: (string, string) -> bool, ys: seq<string>)
    requires Sorted(le, ys) && ys != []
    ensures Sorted(le, ys[1..])
    ensures forall y | y in ys[1..] :: le(ys[0], y)
  {
  }

  lemma SameMembers(a: seq<string>, b: seq<string>)
    requires multiset(a) == multiset(b)
    ensures forall x :: x in a <==> x in b
  {
    forall x: string
      ensures x in a <==> x in b
    {
      assert x in a <==> x in multiset(a);
    }
  }

  lemma InsertMembers(before: (string, string) -> bool, x: string, ys: seq<string>)
    ensures forall y | y in Insert(before, x, ys) :: y == x || y in ys
  {
    forall y | y in Insert(before, x, ys)
      ensures y == x || y in ys
    {
      assert y in multiset(Insert(before, x, ys));
    }
  }

  /** An element that is in order with everything it stays in front of, and with everything it moves behind. */
  lemma {:induction false} InsertSorted(before: (string, string) -> bool, le: (string, string) -> bool,
                                        x: string, ys: seq<string>)
    requires Sorted(le, ys)
    requires forall y | y in ys :: before(y, x) ==> le(y, x)
    requires forall i, j | 0 <= i <= j < |ys| && !before(ys[i], x) :: le(x, ys[j])
    ensures Sorted(le, Insert(before, x, ys))
    decreases |ys|
  {
    if ys == [] || !before(ys[0], x) {
      assert forall y | y in ys :: le(x, y);
      SortedFirst(le, x, ys);
    } else {
      var rest := ys[1..];
      SortedTail(le, ys);
      forall i, j | 0 <= i <= j < |rest| && !before(rest[i], x)
        ensures le(x, rest[j])
      {
        assert rest[i] == ys[i + 1] && rest[j] == ys[j + 1];
      }
      InsertSorted(before, le, x, rest);
      InsertMembers(before, x, rest);
      SortedFirst(le, ys[0], Insert(before, x, rest));
    }
  }

  lemma {:induction false} SortsByName(xs: seq<string>)
    ensures Sorted(LexLe, StableSort(ByName(), xs))
    decreases |xs|
  {
    if xs == [] {
    } else {
      var x, ys := xs[0], StableSort(ByName(), xs[1..]);
      SortsByName(xs[1..]);
      forall i, j | 0 <= i <= j < |ys| && !ByName()(ys[i], x)
        ensures LexLe(x, ys[j])
      {
        LexTotal(x, ys[i]);
        if i < j {
          LexTransitive(x, ys[i], ys[j]);
        }
      }
      InsertSorted(ByName(), LexLe, x, ys);
    }
  }

  lemma NotBefore(priority: string -> int, x: string, y: string, z: string)
    requires !ByPriority(priority)(y, x) && LexLe(x, y) && (y == z || Listed(priority)(y, z)) && LexLe(x, z)
    ensures Listed(priority)(x, z)
  {
    hide LexLe;
  }

  lemma BeforeIsListed(priority: string -> int, x: string, y: string)
    ensures ByPriority(priority)(y, x) ==> Listed(priority)(y, x)
  {
    hide LexLe;
  }

  lemma InsertByPriority(priority: string -> int, x: string, ys: seq<string>)
    requires Sorted(Listed(priority), ys) && forall y | y in ys :: LexLe(x, y)
    ensures Sorted(Listed(priority), Insert(ByPriority(priority), x, ys))
  {
    hide LexLe, Listed, ByPriority, Insert;
    var before, le := ByPriority(priority), Listed(priority);
    forall i, j | 0 <= i <= j < |ys| && !before(ys[i], x)
      ensures le(x, ys[j])
    {
      assert ys[i] in ys && ys[j] in ys;
      assert i < j ==> le(ys[i], ys[j]);
      NotBefore(priority, x, ys[i], ys[j]);
    }
    forall y | y in ys
      ensures before(y, x) ==> le(y, x)
    {
      BeforeIsListed(priority, x, y);
    }
    InsertSorted(before, le, x, ys);
  }

  /** Stability at work: sorting a list in name order by priority leaves each priority in name order. */
  lemma {:induction false} PriorityKeepsNames(priority: string -> int, xs: seq<string>)
    requires Sorted(LexLe, xs)
    ensures Sorted(Listed(priority), StableSort(ByPriority(priority), xs))
    decreases |xs|
  {
    hide LexLe, Listed, ByPriority, Insert;
    if xs == [] {
    } else {
      var ys := StableSort(ByPriority(priority), xs[1..]);
      SortedTail(LexLe, xs);
      PriorityKeepsNames(priority, xs[1..]);
      SameMembers(ys, xs[1..]);
      InsertByPriority(priority, xs[0], ys);
    }
  }

  /** The listing is a permutation, by priority descending and then by name ascending. */
  lemma ArrangeIsListed(priority: string -> int, xs: seq<string>)
    ensures multiset(Arrange(priority, xs)) == multiset(xs)
    ensures Sorted(Listed(priority), Arrange(priority, xs))
  {
    SortsByName(xs);
    PriorityKeepsNames(priority, StableSort(ByName(), xs));
  }

  lemma Mutual(priority: string -> int, x: string, y: string)
    requires Listed(priority)(x, y) && Listed(priority)(y, x)
    ensures x == y
  {
    LexTotal(x, y);
  }

  lemma SameFirst(priority: string -> int, a: seq<string>, b: seq<string>)
    requires multiset(a) == multiset(b) && a != [] && b != []
    requires Sorted(Listed(priority), a) && Sorted(Listed(priority), b)
    ensures a[0] == b[0]
  {
    hide Listed;
    SameMembers(a, b);
    assert a[0] in b && b[0] in a;
    var i :| 0 <= i < |b| && b[i] == a[0];
    var j :| 0 <= j < |a| && a[j] == b[0];
    if i > 0 && j > 0 {
      assert Listed(priority)(b[0], b[i]) && Listed(priority)(a[0], a[j]);
      Mutual(priority, a[0], b[0]);
    }
  }

  lemma SameTails(a: seq<string>, b: seq<string>)
    requires multiset(a) == multiset(b) && a != [] && b != [] && a[0] == b[0]
    ensures multiset(a[1..]) == multiset(b[1..])
  {
    assert a == [a[0]] + a[1..] && b == [b[0]] + b[1..];
    assert multiset(a[1..]) == multiset(a) - multiset{a[0]};
    assert multiset(b[1..]) == multiset(b) - multiset{b[0]};
  }

  /** There is only one listing of the same names. */
  lemma {:induction false} ListingIsUnique(priority: string -> int, a: seq<string>, b: seq<string>)
    requires multiset(a) == multiset(b)
    requires Sorted(Listed(priority), a) && Sorted(Listed(priority), b)
    ensures a == b
    decreases |a|
  {
    hide Listed;
    assert |a| == |multiset(a)| == |multiset(b)| == |b|;
    if a == [] {
    } else {
      SameFirst(priority, a, b);
      SameTails(a, b);
      SortedTail(Listed(priority), a);
      SortedTail(Listed(priority), b);
      ListingIsUnique(priority, a[1..], b[1..]);
      assert a == [a[0]] + a[1..] && b == [b[0]] + b[1..];
    }
  }

  /** A dictionary may give its keys in any order: the listing does not depend on it. */
  lemma ArrangeIgnoresKeyOrder(priority: string -> int, xs: seq<string>, ys: seq<string>)
    requires multiset(xs) == multiset(ys)
    ensures Arrange(priority, xs) == Arrange(priority, ys)
  {
    ArrangeIsListed(priority, xs);
    ArrangeIsListed(priority, ys);
    ListingIsUnique(priority, Arrange(priority, xs), Arrange(priority, ys));
  }

  //
  // The program's two listings
  //

  function FieldPriority(code: string): int
  {
    if code == "board" then 9
    else if code == "short_desc" then 8
    else if code == "long_desc" then 7
    else if code == "min" then 5
    else if code == "max" then 4
    else if code == "unit" then 3
    else if code == "decimal" then 2
    else 0
  }

  function GroupPriority(name: string): int
  {
    if name == "Miscellaneous" then -10 else 0
  }

  /** Listed, spelled out for two places of a listing. */
  lemma ListedAt(priority: string -> int, xs: seq<string>, i: nat, j: nat)
    requires i < j < |Arrange(priority, xs)|
    ensures var a, b := Arrange(priority, xs)[i], Arrange(priority, xs)[j];
      priority(a) > priority(b) || (priority(a) == priority(b) && LexLe(a, b))
  {
    hide Arrange, LexLe;
    ArrangeIsListed(priority, xs);
    var r := Arrange(priority, xs);
    assert Listed(priority)(r[i], r[j]);
  }

  /** The codes listed first, in the order they are listed in. */
  const FIRST_CODES: seq<string> := ["board", "short_desc", "long_desc", "min", "max", "unit", "decimal"]

  lemma KnownCode(code: string)
    ensures FieldPriority(code) > 0 <==> code in FIRST_CODES
    ensures FieldPriority(code) >= 0
  {
    assert FIRST_CODES[0] == "board" && FIRST_CODES[1] == "short_desc" && FIRST_CODES[2] == "long_desc";
    assert FIRST_CODES[3] == "min" && FIRST_CODES[4] == "max" && FIRST_CODES[5] == "unit";
    assert FIRST_CODES[6] == "decimal";
  }

  lemma EarlierFirst(p: nat, q: nat)
    requires p < |FIRST_CODES| && q < |FIRST_CODES|
    ensures FieldPriority(FIRST_CODES[p]) >= FieldPriority(FIRST_CODES[q]) ==> p <= q
  {
  }

  /**
    The listing of a parameter's field codes: board, short_desc, long_desc, min, max, unit, decimal, in
    this order, as far as they are there, and after them every other code in name order.
   */
  lemma FieldCodesListed(codes: seq<string>, i: nat, j: nat)
    requires i < j < |Arrange(FieldPriority, codes)|
    ensures var a, b := Arrange(FieldPriority, codes)[i], Arrange(FieldPriority, codes)[j];
      && (forall p, q | 0 <= p < 7 && 0 <= q < 7 && a == FIRST_CODES[p] && b == FIRST_CODES[q] :: p <= q)
      && (a !in FIRST_CODES ==> b !in FIRST_CODES && LexLe(a, b))
  {
    hide Arrange, LexLe, FieldPriority;
    ListedAt(FieldPriority, codes, i, j);
    var a, b := Arrange(FieldPriority, codes)[i], Arrange(FieldPriority, codes)[j];
    KnownCode(a);
    KnownCode(b);
    forall p, q | 0 <= p < 7 && 0 <= q < 7 && a == FIRST_CODES[p] && b == FIRST_CODES[q]
      ensures p <= q
    {
      EarlierFirst(p, q);
    }
  }

  /** Miscellaneous comes last, whatever the other groups are called; they are in name order. */
  lemma MiscellaneousIsLast(names: seq<string>, i: nat, j: nat)
    requires i < j < |Arrange(GroupPriority, names)|
    ensures var a, b := Arrange(GroupPriority, names)[i], Arrange(GroupPriority, names)[j];
      if a == "Miscellaneous" then b == "Miscellaneous" else b == "Miscellaneous" || LexLe(a, b)
  {
    hide Arrange, LexLe;
    ListedAt(GroupPriority, names, i, j);
  }
}
