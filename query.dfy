/** Table scans: a filtered queryset as the ascending list of matching row positions. */
module Query {
  import opened Common

  predicate Increasing(s: seq<nat>) {
    forall i, j :: 0 <= i < j < |s| ==> s[i] < s[j]
  }

  /** The positions below `n` whose row satisfies `p`, in table order (`.filter(...)`). */
  function Where(n: nat, p: nat -> bool): (r: seq<nat>)
    ensures forall x: nat :: x in r <==> x < n && p(x)
    ensures Increasing(r)
    decreases n
  {
    if n == 0 then []
    else
      var w := Where(n - 1, p);
      assert forall k :: 0 <= k < |w| ==> w[k] < n - 1 by {
        forall k | 0 <= k < |w| ensures w[k] < n - 1 { assert w[k] in w; }
      }
      w + (if p(n - 1) then [n - 1] else [])
  }

  /** The first matching position, if any (`.filter(...).first()`). */
  function First(n: nat, p: nat -> bool): (r: Option<nat>)
    ensures r.Some? ==> r.value < n && p(r.value)
    ensures r.Some? ==> forall j: nat :: j < r.value ==> !p(j)
    ensures r.None? ==> forall j: nat :: j < n ==> !p(j)
  {
    var w := Where(n, p);
    if w == [] then None
    else
      assert w[0] in w;
      Some(w[0])
  }

  /** A scan in which nothing matches yields no rows. */
  lemma {:induction false} WhereNone(n: nat, p: nat -> bool)
    requires forall x: nat :: x < n ==> !p(x)
    ensures Where(n, p) == []
  {
    if n > 0 {
      WhereNone(n - 1, p);
    }
  }
}
