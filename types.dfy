// Values shared by the simulation: points, sizes, directions, the game's
// fixed constants, Java's truncating integer division and the two sequence
// helpers the registry and the vertex arrays need.

datatype Point = Point(x: int, y: int)

datatype Dimension = Dimension(width: int, height: int)

/** GalagaGame.Direction: the four screen directions. */
datatype Direction = North | South | East | West

// The constants GalagaGame declares as private final fields.
const DefaultPlayerLives := 3
const DefaultPlayerDiedTimeout := 200
const DefaultEnemySize := 24
const EnemySpacing := 12
const WindowMargin := 20
const NudgeDistance := 1
const ProjectileTickDistance := 8
/** Distance between the slots of neighbouring enemies in the formation. */
const SlotPitch := DefaultEnemySize + EnemySpacing

/** Java's `/` on `int`, which truncates toward zero (Dafny's `/` is Euclidean). */
function JavaDiv(a: int, b: int): (q: int)
  requires b > 0
  ensures a >= 0 ==> 0 <= q && q * b <= a < q * b + b
  ensures a < 0 ==> q <= 0 && q * b - b < a <= q * b
{
  if a >= 0 then a / b else -((-a) / b)
}

/**
 * `delay == 0 || tick % delay == 0`, the game's "every delay-th tick" test.
 * Java's `%` truncates and Dafny's is Euclidean, but for a divisor that is
 * not zero both remainders are zero exactly when the divisor divides the tick.
 */
predicate EveryNth(tick: int, delay: int)
{
  delay == 0 || tick % delay == 0
}

/** The test passes on every tick for delay 0, and otherwise exactly on the multiples of the delay. */
lemma EveryNthMultiples(tick: int, delay: int)
  ensures EveryNth(tick, delay) <==> delay == 0 || exists k :: tick == k * delay
{
  if delay != 0 {
    var q, m := tick / delay, tick % delay;
    assert tick == q * delay + m && 0 <= m < Abs(delay);
    if m == 0 {
      assert tick == q * delay;
    }
    if k :| tick == k * delay {
      assert m == (k - q) * delay;
      if k - q != 0 {
        MultipleAtLeast(k - q, delay);
      }
    }
  }
}

/** A non-zero multiple of d is at least |d| in magnitude. */
lemma {:induction false} MultipleAtLeast(j: int, d: int)
  requires j != 0
  ensures Abs(j * d) >= Abs(d)
  decreases Abs(j), j < 0
{
  if j > 0 {
    if j > 1 {
      MultipleAtLeast(j - 1, d);
      assert j * d == (j - 1) * d + d;
    }
  } else {
    MultipleAtLeast(-j, d);
    assert j * d == -((-j) * d);
  }
}

/** `Math.abs` on `int` (no overflow: integers are unbounded here). */
function Abs(a: int): (r: int)
  ensures r >= 0 && (r == a || r == -a)
{
  if a < 0 then -a else a
}

/** Every element of `s` increased by `d`. */
function Offset(s: seq<int>, d: int): (r: seq<int>)
  ensures |r| == |s| && forall i :: 0 <= i < |s| ==> r[i] == s[i] + d
{
  seq(|s|, i requires 0 <= i < |s| => s[i] + d)
}

lemma {:induction false} OffsetTwice(s: seq<int>, a: int, b: int)
  ensures Offset(Offset(s, a), b) == Offset(s, a + b)
{
  var l, r := Offset(Offset(s, a), b), Offset(s, a + b);
  assert |l| == |r|;
  forall i | 0 <= i < |l| ensures l[i] == r[i] {
  }
}

lemma AppendAssoc<T>(a: seq<T>, b: seq<T>, c: seq<T>)
  ensures (a + b) + c == a + (b + c)
{
}

/**
 * `java.util.ArrayList.remove(Object)` on a list of actors: removes the first
 * element identical to `x`, if there is one.
 */
function RemoveFirst<T(==)>(s: seq<T>, x: T): seq<T>
{
  if s == [] then []
  else if s[0] == x then s[1..]
  else [s[0]] + RemoveFirst(s[1..], x)
}

/** Where the first occurrence of `x` in `s` is. */
function IndexOf<T(==)>(s: seq<T>, x: T): (i: nat)
  requires x in s
  ensures i < |s| && s[i] == x && x !in s[..i]
{
  if s[0] == x then 0 else 1 + IndexOf(s[1..], x)
}

/** Removing `x` cuts out exactly its first occurrence; every other entry keeps its order. */
lemma {:induction false} RemoveFirstCutsFirstOccurrence<T>(s: seq<T>, x: T)
  requires x in s
  ensures RemoveFirst(s, x) == s[..IndexOf(s, x)] + s[IndexOf(s, x) + 1..]
{
  RemoveFirstAt(s, x, IndexOf(s, x));
}

/** `RemoveFirst` cuts out position `i` when `i` holds the first copy of `x`. */
lemma {:induction false} RemoveFirstAt<T>(s: seq<T>, x: T, i: nat)
  requires i < |s| && s[i] == x && x !in s[..i]
  ensures RemoveFirst(s, x) == s[..i] + s[i + 1..]
{
  if i == 0 {
    assert s[..0] + s[1..] == s[1..];
  } else {
    var t := s[1..];
    assert s[0] in s[..i];
    assert t[..i - 1] == s[1..i];
    RemoveFirstAt(t, x, i - 1);
    assert s[..i] == [s[0]] + t[..i - 1];
    assert s[i + 1..] == t[i..];
  }
}

/** Removing an absent `x` changes nothing. */
lemma {:induction false} RemoveFirstAbsent<T>(s: seq<T>, x: T)
  requires x !in s
  ensures RemoveFirst(s, x) == s
{
  if s != [] {
    assert s == [s[0]] + s[1..];
    RemoveFirstAbsent(s[1..], x);
  }
}

/** Removing `x` takes away one copy of `x` and nothing else. */
lemma {:induction false} RemoveFirstMultiset<T>(s: seq<T>, x: T)
  ensures multiset(RemoveFirst(s, x)) == multiset(s) - multiset{x}
{
  if s != [] {
    assert s == [s[0]] + s[1..];
    RemoveFirstMultiset(s[1..], x);
  }
}

/** No entry of `s` occurs twice. */
predicate Distinct<T(==)>(s: seq<T>)
{
  forall i, j :: 0 <= i < j < |s| ==> s[i] != s[j]
}

/** Appending an entry not yet present keeps a list free of duplicates. */
lemma DistinctSnoc<T>(s: seq<T>, x: T)
  requires Distinct(s) && x !in s
  ensures Distinct(s + [x])
{
}

/** On a list without duplicates, `RemoveFirst` removes every copy and keeps the rest distinct. */
lemma {:induction false} DistinctRemoveFirst<T>(s: seq<T>, x: T)
  requires Distinct(s)
  ensures Distinct(RemoveFirst(s, x)) && x !in RemoveFirst(s, x)
  ensures forall y :: y in RemoveFirst(s, x) <==> y in s && y != x
{
  if s != [] {
    var t := s[1..];
    assert s == [s[0]] + t;
    DistinctTail(s);
    if s[0] != x {
      DistinctRemoveFirst(t, x);
      DistinctCons(s[0], RemoveFirst(t, x));
    }
  }
}

/** The tail of a list without duplicates has none, and does not hold the head. */
lemma DistinctTail<T>(s: seq<T>)
  requires Distinct(s) && s != []
  ensures Distinct(s[1..]) && s[0] !in s[1..]
{
  var t := s[1..];
  forall i, j | 0 <= i < j < |t|
    ensures t[i] != t[j]
  {
    assert t[i] == s[i + 1] && t[j] == s[j + 1];
  }
  forall k | 0 <= k < |t|
    ensures t[k] != s[0]
  {
    assert t[k] == s[k + 1];
  }
}

/** Putting a new entry in front of a list without duplicates keeps it so. */
lemma DistinctCons<T>(a: T, r: seq<T>)
  requires Distinct(r) && a !in r
  ensures Distinct([a] + r)
{
  var l := [a] + r;
  forall i, j | 0 <= i < j < |l|
    ensures l[i] != l[j]
  {
    assert l[j] == r[j - 1];
    if i > 0 {
      assert l[i] == r[i - 1];
    }
  }
}

/** The entries of `s` whose bit in `keep` is set, in their order. */
function Select<T>(s: seq<T>, keep: seq<bool>): (r: seq<T>)
  requires |keep| == |s|
  ensures |r| <= |s|
  ensures forall x :: x in r ==> x in s
{
  if s == [] then [] else (if keep[0] then [s[0]] else []) + Select(s[1..], keep[1..])
}

/** An entry of a selection is an entry of `s` whose bit is set. */
lemma {:induction false} SelectPicksKept<T>(s: seq<T>, keep: seq<bool>, x: T)
  requires |keep| == |s| && x in Select(s, keep)
  ensures exists i :: 0 <= i < |s| && keep[i] && s[i] == x
{
  assert s != [];
  if keep[0] && x == s[0] {
    assert keep[0] && s[0] == x;
  } else {
    SelectPicksKept(s[1..], keep[1..], x);
    var i :| 0 <= i < |s| - 1 && keep[1..][i] && s[1..][i] == x;
    assert keep[i + 1] && s[i + 1] == x;
  }
}

/** Every bit of `m` flipped. */
function Negate(m: seq<bool>): (r: seq<bool>)
  ensures |r| == |m| && forall i :: 0 <= i < |m| ==> r[i] == !m[i]
{
  seq(|m|, i requires 0 <= i < |m| => !m[i])
}

lemma {:induction false} SelectSnoc<T>(s: seq<T>, keep: seq<bool>, x: T, b: bool)
  requires |keep| == |s|
  ensures Select(s + [x], keep + [b]) == Select(s, keep) + (if b then [x] else [])
{
  if s == [] {
    assert s + [x] == [x] && keep + [b] == [b];
  } else {
    assert (s + [x])[1..] == s[1..] + [x];
    assert (keep + [b])[1..] == keep[1..] + [b];
    SelectSnoc(s[1..], keep[1..], x, b);
  }
}

/** One more entry of `s` examined: the selection over the dropped bits grows by it if its bit is clear. */
lemma SelectDroppedStep<T>(s: seq<T>, kept: seq<bool>, k: bool)
  requires |kept| < |s|
  ensures Select(s[..|kept| + 1], Negate(kept + [k])) ==
          Select(s[..|kept|], Negate(kept)) + (if k then [] else [s[|kept|]])
{
  var i := |kept|;
  assert s[..i + 1] == s[..i] + [s[i]];
  assert Negate(kept + [k]) == Negate(kept) + [!k];
  SelectSnoc(s[..i], Negate(kept), s[i], !k);
}

lemma {:induction false} SelectDistinct<T>(s: seq<T>, keep: seq<bool>)
  requires |keep| == |s| && Distinct(s)
  ensures Distinct(Select(s, keep))
{
  if s != [] {
    SelectDistinct(s[1..], keep[1..]);
    assert s[0] !in s[1..];
  }
}

/** Java's `remove(Object)` applied for each entry of `xs` in turn. */
function RemoveEach<T(==)>(s: seq<T>, xs: seq<T>): seq<T>
  decreases xs
{
  if xs == [] then s else RemoveEach(RemoveFirst(s, xs[0]), xs[1..])
}

lemma {:induction false} RemoveEachKeepsHead<T>(a: T, t: seq<T>, xs: seq<T>)
  requires a !in xs
  ensures RemoveEach([a] + t, xs) == [a] + RemoveEach(t, xs)
  decreases xs
{
  if xs != [] {
    assert ([a] + t)[1..] == t;
    assert RemoveFirst([a] + t, xs[0]) == [a] + RemoveFirst(t, xs[0]);
    RemoveEachKeepsHead(a, RemoveFirst(t, xs[0]), xs[1..]);
  }
}

/**
 * On a list without duplicates, removing the entries a mask drops, one by
 * one, leaves exactly the entries it keeps, in their order.
 */
lemma {:induction false} RemoveEachSelect<T>(s: seq<T>, keep: seq<bool>)
  requires |keep| == |s| && Distinct(s)
  ensures RemoveEach(s, Select(s, Negate(keep))) == Select(s, keep)
{
  if s != [] {
    var a, t := s[0], s[1..];
    assert s == [a] + t;
    assert Negate(keep)[1..] == Negate(keep[1..]);
    RemoveEachSelect(t, keep[1..]);
    var dropped := Select(t, Negate(keep[1..]));
    if !keep[0] {
      assert Select(s, Negate(keep)) == [a] + dropped;
      assert ([a] + dropped)[0] == a && ([a] + dropped)[1..] == dropped;
    } else {
      assert a !in t;
      assert a !in dropped;
      assert Select(s, Negate(keep)) == dropped;
      assert Select(s, keep) == [a] + Select(t, keep[1..]);
      RemoveEachKeepsHead(a, t, dropped);
    }
  }
}

/** Removing every entry of a list from itself, one by one, empties it. */
lemma {:induction false} RemoveEachItself<T>(s: seq<T>)
  ensures RemoveEach(s, s) == []
{
  if s != [] {
    RemoveEachItself(s[1..]);
  }
}

/** One more removal at the end of the list of entries to remove. */
lemma {:induction false} RemoveEachSnoc<T>(s: seq<T>, xs: seq<T>, a: T)
  ensures RemoveEach(s, xs + [a]) == RemoveFirst(RemoveEach(s, xs), a)
  decreases xs
{
  if xs != [] {
    assert (xs + [a])[0] == xs[0] && (xs + [a])[1..] == xs[1..] + [a];
    RemoveEachSnoc(RemoveFirst(s, xs[0]), xs[1..], a);
  }
}

/** On a list without duplicates, removing entries one by one removes exactly those entries. */
lemma {:induction false} RemoveEachDistinct<T>(s: seq<T>, xs: seq<T>)
  requires Distinct(s)
  ensures Distinct(RemoveEach(s, xs))
  ensures forall y :: y in RemoveEach(s, xs) <==> y in s && y !in xs
  decreases xs
{
  if xs != [] {
    DistinctRemoveFirst(s, xs[0]);
    RemoveEachDistinct(RemoveFirst(s, xs[0]), xs[1..]);
    assert forall y :: y in xs <==> y == xs[0] || y in xs[1..];
  }
}

/** Removing the entries of `xs + ys` is removing those of `xs`, then those of `ys`. */
lemma {:induction false} RemoveEachAppend<T>(s: seq<T>, xs: seq<T>, ys: seq<T>)
  ensures RemoveEach(s, xs + ys) == RemoveEach(RemoveEach(s, xs), ys)
  decreases xs
{
  if xs != [] {
    assert (xs + ys)[0] == xs[0] && (xs + ys)[1..] == xs[1..] + ys;
    RemoveEachAppend(RemoveFirst(s, xs[0]), xs[1..], ys);
  } else {
    assert xs + ys == ys;
  }
}
