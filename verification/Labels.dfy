// Reversing the dot-separated labels of a rule.
module Labels {

  /** str.split("."): at least one label, and an empty one for every empty stretch between dots. */
  function Split(s: string): (r: seq<string>)
    ensures r != []
  {
    if s == [] then [[]]
    else
      var rest := Split(s[1..]);
      if s[0] == '.' then [[]] + rest else [[s[0]] + rest[0]] + rest[1..]
  }

  /** ".".join(labels) */
  function Join(labels: seq<string>): string {
    if labels == [] then []
    else if |labels| == 1 then labels[0]
    else labels[0] + ['.'] + Join(labels[1..])
  }

  function Reverse(labels: seq<string>): (r: seq<string>)
    ensures |r| == |labels|
    ensures forall i :: 0 <= i < |r| ==> r[i] == labels[|labels| - 1 - i]
  {
    if labels == [] then [] else Reverse(labels[1..]) + [labels[0]]
  }

  function ReverseLabels(rule: string): string {
    Join(Reverse(Split(rule)))
  }

  ghost predicate DotFree(labels: seq<string>) {
    forall i :: 0 <= i < |labels| ==> '.' !in labels[i]
  }

  lemma {:induction false} JoinSplit(s: string)
    ensures Join(Split(s)) == s && DotFree(Split(s))
  {
    if s != [] {
      JoinSplit(s[1..]);
      var rest := Split(s[1..]);
      if s[0] == '.' {
        assert ([[]] + rest)[1..] == rest;
      } else {
        assert ([[s[0]] + rest[0]] + rest[1..])[1..] == rest[1..];
      }
    }
  }

  lemma {:induction false} SplitJoin(labels: seq<string>)
    requires labels != [] && DotFree(labels)
    ensures Split(Join(labels)) == labels
    decreases |labels|, |labels[0]|
  {
    var s := Join(labels);
    if labels[0] == [] {
      if |labels| > 1 {
        assert s[1..] == Join(labels[1..]);
        SplitJoin(labels[1..]);
        assert [labels[0]] + labels[1..] == labels;
      }
    } else {
      var shorter := labels[0 := labels[0][1..]];
      assert Join(shorter) == s[1..] by {
        assert shorter[1..] == labels[1..];
      }
      SplitJoin(shorter);
      assert s[0] == labels[0][0];
      assert [s[0]] + labels[0][1..] == labels[0];
    }
  }

  /** Reversing the labels twice restores the rule. */
  lemma ReverseLabelsInvolution(rule: string)
    ensures ReverseLabels(ReverseLabels(rule)) == rule
  {
    var labels := Split(rule);
    JoinSplit(rule);
    SplitJoin(Reverse(labels));
    assert Reverse(Reverse(labels)) == labels;
  }

  /** rule.count(".") + 1 */
  method CountLabels(rule: string) returns (n: nat)
    ensures n == |Split(rule)|
  {
    n := 1;
    assert rule[|rule|..] == [];
    for i := |rule| downto 0
      invariant n == |Split(rule[i..])|
    {
      assert rule[i..][1..] == rule[i + 1..];
      if rule[i] == '.' {
        n := n + 1;
      }
    }
    assert rule[0..] == rule;
  }

  lemma {:induction false} SplitWhole(s: string)
    requires '.' !in s
    ensures Split(s) == [s]
  {
    if s != [] {
      assert s[0] in s;
      SplitWhole(s[1..]);
      assert [s[0]] + s[1..] == s;
    }
  }

  /** The last label is what follows the last dot. */
  lemma {:induction false} SplitLast(s: string, start: nat)
    requires 0 < start <= |s| && s[start - 1] == '.' && '.' !in s[start..]
    ensures Split(s) == Split(s[..start - 1]) + [s[start..]]
  {
    var rest := Split(s[1..]);
    if start == 1 {
      SplitWhole(s[1..]);
      assert s[..0] == [];
    } else {
      SplitLast(s[1..], start - 1);
      assert s[1..][start - 1..] == s[start..];
      assert s[..start - 1][1..] == s[1..][..start - 2];
    }
  }

  lemma {:induction false} JoinAppend(labels: seq<string>, last: string)
    requires labels != []
    ensures Join(labels + [last]) == Join(labels) + ['.'] + last
  {
    if |labels| > 1 {
      JoinAppend(labels[1..], last);
      assert (labels + [last])[1..] == labels[1..] + [last];
    }
  }

  lemma ReverseLabelsInjective(a: string, b: string)
    requires ReverseLabels(a) == ReverseLabels(b)
    ensures a == b
  {
    ReverseLabelsInvolution(a);
    ReverseLabelsInvolution(b);
  }
}
