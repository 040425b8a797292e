/** Small building blocks shared by the rest of the model: an Option type
    standing for "the Python code raised", and sequence helpers. */
module Common {

  /** `None` stands for the exceptions of the Python code that the model
      represents: a missing `prev_out` or `addr`, an index past the end of a
      list, a failed request, and a scaler handed an empty frame. */
  datatype Option<+T> = None | Some(value: T)

  function Min(a: int, b: int): (m: int)
    ensures m <= a && m <= b
    ensures m == a || m == b
  {
    if a <= b then a else b
  }

  /** Succeeds exactly when every element succeeds, keeping their values in
      order; this is how a list comprehension that may raise on any element
      behaves. */
  function AllSome<T>(xs: seq<Option<T>>): (r: Option<seq<T>>)
    ensures r.Some? <==> forall i | 0 <= i < |xs| :: xs[i].Some?
    ensures r.Some? ==> |r.value| == |xs|
    ensures r.Some? ==> forall i | 0 <= i < |xs| :: r.value[i] == xs[i].value
  {
    if |xs| == 0 then Some([])
    else match (xs[0], AllSome(xs[1..]))
      case (Some(x), Some(rest)) =>
        assert forall i | 1 <= i < |xs| :: xs[i] == xs[1..][i - 1];
        Some([x] + rest)
      case _ => None
  }

  /** Concatenation of a list of lists: the elements of each inner list in
      turn. */
  function Concat<T>(xss: seq<seq<T>>): seq<T>
  {
    if |xss| == 0 then [] else xss[0] + Concat(xss[1..])
  }

  lemma {:induction false} ConcatMembership<T>(xss: seq<seq<T>>, x: T)
    ensures x in Concat(xss) <==> exists i | 0 <= i < |xss| :: x in xss[i]
  {
    if |xss| > 0 {
      ConcatMembership(xss[1..], x);
      if x in Concat(xss[1..]) {
        var i :| 0 <= i < |xss| - 1 && x in xss[1..][i];
        assert x in xss[i + 1];
      }
      if exists i | 0 <= i < |xss| :: x in xss[i] {
        var i :| 0 <= i < |xss| && x in xss[i];
        if i > 0 {
          assert x in xss[1..][i - 1];
        }
      }
    }
  }
}
