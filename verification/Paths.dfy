/** Joining path components with backslashes. */
module Paths {

  function Reversed<T>(s: seq<T>): (r: seq<T>)
    ensures |r| == |s|
  {
    if s == [] then [] else Reversed(s[1..]) + [s[0]]
  }

  function Join(parts: seq<string>): string {
    if parts == [] then "" else if |parts| == 1 then parts[0] else parts[0] + "\\" + Join(parts[1..])
  }

  lemma {:induction false} JoinSnoc(parts: seq<string>, last: string)
    requires parts != []
    ensures Join(parts + [last]) == Join(parts) + "\\" + last
  {
    if |parts| > 1 {
      assert (parts + [last])[1..] == parts[1..] + [last];
      JoinSnoc(parts[1..], last);
    } else {
      assert (parts + [last])[1..] == [last];
    }
  }

  /** Components listed leaf first, as both parent walks collect them. */
  lemma {:induction false} JoinReversedCons(name: string, above: seq<string>)
    ensures Join(Reversed([name] + above)) ==
            if above == [] then name else Join(Reversed(above)) + "\\" + name
  {
    assert ([name] + above)[1..] == above;
    if above != [] {
      JoinSnoc(Reversed(above), name);
    } else {
      assert Reversed(above) + [name] == [name];
    }
  }
}
