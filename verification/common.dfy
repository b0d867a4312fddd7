/** Small shared definitions used by the parser and inspector models. */
module Common {

  /** A value that may be missing: Python's `None` versus a present value. */
  datatype Option<+T> = None | Some(value: T)

  /** Python's `d.get(key, default)` on a dictionary. */
  function Get<K, V>(m: map<K, V>, key: K, default: V): (v: V)
    ensures key in m ==> v == m[key]
    ensures key !in m ==> v == default
  {
    if key in m then m[key] else default
  }

  /** Concatenation can be regrouped. */
  lemma Regroup<T>(a: seq<T>, b: seq<T>, c: seq<T>)
    ensures (a + b) + c == a + (b + c)
  {
  }

  /** Python's `s.replace('\n', '')`. */
  function DropNewlines(s: string): (r: string)
    ensures |s| == 1 ==> r == (if s[0] == '\n' then "" else s)
    ensures |r| <= |s|
    ensures forall i :: 0 <= i < |r| ==> r[i] != '\n'
    ensures (forall i :: 0 <= i < |s| ==> s[i] != '\n') ==> r == s
  {
    if |s| == 0 then ""
    else if s[0] == '\n' then DropNewlines(s[1..])
    else [s[0]] + DropNewlines(s[1..])
  }

  /**
    Dropping newlines works piece by piece: with the one-character case
    above, every character other than a newline is kept, in order.
  */
  lemma {:induction false} DropNewlinesAppend(a: string, b: string)
    ensures DropNewlines(a + b) == DropNewlines(a) + DropNewlines(b)
    decreases |a|
  {
    if |a| == 0 {
      assert a + b == b;
    } else {
      assert (a + b)[0] == a[0];
      assert (a + b)[1..] == a[1..] + b;
      DropNewlinesAppend(a[1..], b);
      if a[0] != '\n' {
        Regroup([a[0]], DropNewlines(a[1..]), DropNewlines(b));
      }
    }
  }
}
