/** The optional value used wherever the TypeScript code returns `undefined`. */
module Options {

  datatype Option<+T> = None | Some(value: T)

  /** The carried values of `xs`, in order. */
  function Present<T>(xs: seq<Option<T>>): (r: seq<T>)
    ensures |r| <= |xs|
  {
    if |xs| == 0 then []
    else (if xs[0].Some? then [xs[0].value] else []) + Present(xs[1..])
  }

  /** A value is present exactly when some entry carries it. */
  lemma {:induction false} PresentMembers<T>(xs: seq<Option<T>>, v: T)
    ensures v in Present(xs) <==> Some(v) in xs
  {
    if |xs| > 0 {
      PresentMembers(xs[1..], v);
      assert xs == [xs[0]] + xs[1..];
    }
  }
}
