/** The string helpers the engine calls: Laravel's `Str::before` and
    `Str::after` for a one-character needle, and single-quote wrapping. */
module PhpStrings {
  import opened Optional

  /** The position of the first occurrence of `c` in `s`, if any. */
  function IndexOf(s: string, c: char): (r: Option<nat>)
    ensures r.None? <==> c !in s
    ensures r.Some? ==> r.value < |s| && s[r.value] == c && c !in s[..r.value]
  {
    if s == [] then None
    else if s[0] == c then Some(0)
    else
      match IndexOf(s[1..], c)
      case None => None
      case Some(i) =>
        assert s[1..][..i] == s[1..i + 1];
        Some(i + 1)
  }

  /** `Str::before(s, c)`: the part of `s` before the first `c`, or all of `s`
      when `c` does not occur. */
  function Before(s: string, c: char): (r: string)
    ensures c !in r
    ensures c !in s ==> r == s
    ensures c in s ==> |r| < |s| && s == r + [c] + After(s, c)
  {
    match IndexOf(s, c)
    case None => s
    case Some(i) => assert s == s[..i] + [c] + s[i + 1..]; s[..i]
  }

  /** `Str::after(s, c)`: the part of `s` after the first `c`, or all of `s`
      when `c` does not occur. */
  function After(s: string, c: char): (r: string)
    ensures c !in s ==> r == s
    ensures c in s ==> |r| < |s| && r == s[|s| - |r|..]
  {
    match IndexOf(s, c)
    case None => s
    case Some(i) => s[i + 1..]
  }

  /** A split at the first `c` is unique: whenever `s` is a `c`-free head, a
      `c` and any tail, Before and After return exactly that head and tail. */
  lemma {:induction false} SplitIsUnique(head: string, c: char, tail: string)
    requires c !in head
    ensures Before(head + [c] + tail, c) == head
    ensures After(head + [c] + tail, c) == tail
  {
    var s := head + [c] + tail;
    assert s[|head|] == c;
    assert s[..|head|] == head;
    var i := IndexOf(s, c).value;
    assert i == |head|;
    assert s[i + 1..] == tail;
  }

  /** `sprintf("'%s'", s)`: wraps `s` in single quotes. */
  function Quote(s: string): (r: string)
    ensures |r| == |s| + 2
    ensures r[0] == '\'' && r[|r| - 1] == '\''
    ensures r[1..|r| - 1] == s
  {
    "'" + s + "'"
  }
}
