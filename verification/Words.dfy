/** Machine words and the small datatypes that every component shares. */
module Words {
  type Word = x: int | 0 <= x < 0x1_0000_0000
  type Byte = x: int | 0 <= x < 0x100

  datatype Option<+T> = None | Some(value: T)

  function Min(a: int, b: int): int {
    if a <= b then a else b
  }

  function Max(a: int, b: int): int {
    if a >= b then a else b
  }

  /** Reduction of a natural result to 32 bits, as unsigned arithmetic does. */
  function Wrap(x: int): Word {
    x % 0x1_0000_0000
  }
}

/** The order of the keys of a sorted map. */
module Order {
  import opened Words

  predicate IsLeast(s: set<int>, m: int) {
    m in s && forall k | k in s :: m <= k
  }

  lemma {:induction false} LeastExists(s: set<int>)
    requires s != {}
    ensures exists m :: IsLeast(s, m)
    decreases |s|
  {
    assert exists x :: x in s by { assert (forall x :: x !in s) ==> s == {}; }
    var x :| x in s;
    var rest := s - {x};
    if rest == {} {
      assert s == {x};
      assert IsLeast(s, x);
    } else {
      LeastExists(rest);
      var m :| IsLeast(rest, m);
      Extends(s, x, m);
    }
  }

  lemma Extends(s: set<int>, x: int, m: int)
    requires x in s && IsLeast(s - {x}, m)
    ensures IsLeast(s, if x <= m then x else m)
  {
    assert forall k | k in s :: k == x || k in s - {x};
  }

  function Least(s: set<int>): (m: int)
    requires s != {}
    ensures m in s && forall k | k in s :: m <= k
  {
    LeastExists(s);
    var m :| IsLeast(s, m);
    m
  }

  predicate IsGreatest(s: set<int>, m: int) {
    m in s && forall k | k in s :: k <= m
  }

  lemma GreatestExists(s: set<int>)
    requires s != {}
    ensures exists m :: IsGreatest(s, m)
  {
    var negated := set k | k in s :: -k;
    assert exists x :: x in s by { assert (forall x :: x !in s) ==> s == {}; }
    var x :| x in s;
    assert -x in negated;
    var m := Least(negated);
    forall k | k in s ensures k <= -m {
      assert -k in negated;
    }
    assert IsGreatest(s, -m);
  }

  function Greatest(s: set<int>): (m: int)
    requires s != {}
    ensures m in s && forall k | k in s :: k <= m
  {
    GreatestExists(s);
    var m :| IsGreatest(s, m);
    m
  }

  /** The first key of a sorted map. */
  function First<V>(m: map<int, V>): (r: Option<int>)
    ensures r.Some? ==> r.value in m && forall k | k in m :: r.value <= k
    ensures r.None? ==> forall k :: k !in m
  {
    if m.Keys == {} then
      assert forall k :: k in m ==> k in m.Keys;
      None
    else
      assert forall k | k in m :: k in m.Keys;
      Some(Least(m.Keys))
  }

  /** The last key of a sorted map. */
  function Last<V>(m: map<int, V>): (r: Option<int>)
    ensures r.Some? ==> r.value in m && forall k | k in m :: k <= r.value
    ensures r.None? ==> forall k :: k !in m
  {
    if m.Keys == {} then
      assert forall k :: k in m ==> k in m.Keys;
      None
    else
      assert forall k | k in m :: k in m.Keys;
      Some(Greatest(m.Keys))
  }

  /** The first key of a sorted map above `at`. */
  function UpperBound<V>(m: map<int, V>, at: int): (r: Option<int>)
    ensures r.Some? ==> r.value in m && at < r.value && forall k | k in m && at < k :: r.value <= k
    ensures r.None? ==> forall k | k in m :: k <= at
  {
    var above := set k | k in m.Keys && at < k;
    if above == {} then
      assert forall k | k in m && at < k :: k in above;
      None
    else
      assert forall k | k in m && at < k :: k in above;
      Some(Least(above))
  }

  /** The last key of a sorted map below `at`. */
  function LastBelow<V>(m: map<int, V>, at: int): (r: Option<int>)
    ensures r.Some? ==> r.value in m && r.value < at && forall k | k in m && k < at :: k <= r.value
    ensures r.None? ==> forall k | k in m :: at <= k
  {
    var below := set k | k in m.Keys && k < at;
    if below == {} then
      assert forall k | k in m && k < at :: k in below;
      None
    else
      assert forall k | k in m && k < at :: k in below;
      Some(Greatest(below))
  }
}
