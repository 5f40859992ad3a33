/**
 Reversal of a node chain. The chain is modelled by the sequence of values met
 when following `next` links from the head; `ReverseLinks` walks it with the
 three-pointer loop of `q_reverse`.
 */
module Chain {

  /** The chain read backwards: the last node becomes the first. */
  function Rev<T>(s: seq<T>): (r: seq<T>)
    ensures |r| == |s|
    ensures forall i | 0 <= i < |s| :: r[i] == s[|s| - 1 - i]
  {
    if |s| == 0 then [] else Rev(s[1..]) + [s[0]]
  }

  /** Reversing twice gives back the original chain. */
  lemma RevRev<T>(s: seq<T>)
    ensures Rev(Rev(s)) == s
  {
  }

  /**
   The re-linking loop of `q_reverse`: `head` is the part not yet visited,
   `middle` the already reversed part that now starts with the last visited
   node. Each step detaches the head node and points it at `middle`.
   */
  method ReverseLinks<T>(s: seq<T>) returns (r: seq<T>)
    ensures r == Rev(s)
  {
    var head := s;
    var middle: seq<T> := [];
    while |head| > 0
      invariant Rev(head) + middle == Rev(s)
      decreases |head|
    {
      var trail := middle;
      middle := [head[0]] + trail;
      assert Rev(head) == Rev(head[1..]) + [head[0]];
      head := head[1..];
    }
    r := middle;
  }
}
