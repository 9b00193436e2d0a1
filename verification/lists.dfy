/** The list shapes the projections share: a filter followed by a map, and a flat map. */
module Lists {

  /** The images under `f` of the elements of `s` that `keep` accepts, in order. */
  function FilterMap<A, B>(s: seq<A>, keep: A -> bool, f: A -> B): (r: seq<B>)
    ensures |r| <= |s|
  {
    if s == [] then []
    else if keep(s[|s| - 1]) then FilterMap(s[..|s| - 1], keep, f) + [f(s[|s| - 1])]
    else FilterMap(s[..|s| - 1], keep, f)
  }

  /** The lists `g` gives for the elements of `s`, one after another. */
  function FlatMap<A, B>(s: seq<A>, g: A -> seq<B>): seq<B> {
    if s == [] then []
    else FlatMap(s[..|s| - 1], g) + g(s[|s| - 1])
  }

  lemma FilterMapStep<A, B>(s: seq<A>, keep: A -> bool, f: A -> B, j: nat)
    requires j < |s|
    ensures FilterMap(s[..j + 1], keep, f) == if keep(s[j]) then FilterMap(s[..j], keep, f) + [f(s[j])] else FilterMap(s[..j], keep, f)
  {
    assert s[..j + 1][..j] == s[..j];
  }

  lemma FlatMapStep<A, B>(s: seq<A>, g: A -> seq<B>, j: nat)
    requires j < |s|
    ensures FlatMap(s[..j + 1], g) == FlatMap(s[..j], g) + g(s[j])
  {
    assert s[..j + 1][..j] == s[..j];
  }

  /** An element is in the result exactly when it is the image of an accepted element. */
  lemma {:induction false} FilterMapMembers<A, B>(s: seq<A>, keep: A -> bool, f: A -> B, b: B)
    ensures b in FilterMap(s, keep, f) <==> exists x :: x in s && keep(x) && b == f(x)
  {
    if s != [] {
      var init := s[..|s| - 1];
      var last := s[|s| - 1];
      FilterMapMembers(init, keep, f, b);
      assert s == init + [last];
      if b in FilterMap(init, keep, f) {
        var x :| x in init && keep(x) && b == f(x);
        assert x in s;
      }
      if x :| x in s && keep(x) && b == f(x) {
        if x != last {
          assert x in init;
        }
      }
    }
  }

  /** An element is in the result exactly when some element's list holds it. */
  lemma {:induction false} FlatMapMembers<A, B>(s: seq<A>, g: A -> seq<B>, b: B)
    ensures b in FlatMap(s, g) <==> exists x :: x in s && b in g(x)
  {
    if s != [] {
      var init := s[..|s| - 1];
      var last := s[|s| - 1];
      FlatMapMembers(init, g, b);
      assert s == init + [last];
      if b in FlatMap(init, g) {
        var x :| x in init && b in g(x);
        assert x in s;
      }
      if x :| x in s && b in g(x) {
        if x != last {
          assert x in init;
        }
      }
    }
  }
}
