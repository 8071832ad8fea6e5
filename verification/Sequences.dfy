/** Removing from and inserting into a sequence at an index. */
module Sequences {

  ghost function Without<T>(s: seq<T>, p: nat): seq<T>
    requires p < |s|
  {
    s[..p] + s[p + 1..]
  }

  lemma WithoutEnds<T>(s: seq<T>)
    requires s != []
    ensures Without(s, 0) == s[1..] && Without(s, |s| - 1) == s[..|s| - 1]
  {
  }

  lemma WithAt<T>(s: seq<T>, p: nat, x: T)
    requires p <= |s|
    ensures var r := With(s, p, x);
            |r| == |s| + 1 && r[p] == x &&
            forall i :: 0 <= i < |r| && i != p ==> r[i] == if i < p then s[i] else s[i - 1]
  {
  }

  ghost function With<T>(s: seq<T>, p: nat, x: T): seq<T>
    requires p <= |s|
  {
    s[..p] + [x] + s[p..]
  }

  /** Moving the first element of what is left to the end of what is done. */
  lemma ConsumeFirst<T>(done: seq<T>, rest: seq<T>)
    requires rest != []
    ensures (done + [rest[0]]) + rest[1..] == done + rest
  {
  }

  lemma FirstOfBoth<T>(s: seq<T>, t: seq<T>)
    requires s != []
    ensures (s + t)[0] == s[0] && (s + t)[1..] == s[1..] + t
  {
  }
}
