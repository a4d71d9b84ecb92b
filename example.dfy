/**
  The example usage at the end of Linked_list.py, and the payloads it uses:
  Python ints and strings, rendered as Python's `str()` renders them.
 */
module Example {
  import opened Chain
  import opened LinkedLists

  /** A payload of the example list: a Python int or a Python str. Values of
      different kinds are never equal, as in Python. */
  datatype Value = Int(i: int) | Str(s: string)

  function DigitChar(d: nat): char
    requires d < 10
  {
    ('0' as int + d) as char
  }

  /** The decimal digits of n, most significant first, without leading
      zeros. */
  function NatToString(n: nat): (r: string)
    ensures |r| > 0 && forall k :: 0 <= k < |r| ==> '0' <= r[k] <= '9'
    ensures |r| > 1 ==> r[0] != '0'
    decreases n
  {
    if n < 10 then [DigitChar(n)] else NatToString(n / 10) + [DigitChar(n % 10)]
  }

  /** Reads a string of decimal digits back as a number. */
  function ParseNat(r: string): nat
    requires forall k :: 0 <= k < |r| ==> '0' <= r[k] <= '9'
    decreases |r|
  {
    if r == [] then 0
    else ParseNat(r[..|r| - 1]) * 10 + (r[|r| - 1] as int - '0' as int)
  }

  lemma {:induction false} NatToStringRoundTrip(n: nat)
    ensures ParseNat(NatToString(n)) == n
    decreases n
  {
    if n >= 10 {
      var r := NatToString(n);
      assert r[..|r| - 1] == NatToString(n / 10);
      NatToStringRoundTrip(n / 10);
    }
  }

  /** Python's `str()` of an int: an optional minus sign, then the digits. */
  function IntToString(i: int): (r: string)
    ensures |r| > 0 && (r[0] == '-' <==> i < 0)
  {
    if i < 0 then "-" + NatToString(-i) else NatToString(i)
  }

  /** Python's `str()` of a payload: a string renders as itself. */
  function Show(x: Value): string
  {
    match x
    case Int(i) => IntToString(i)
    case Str(s) => s
  }

  lemma ShowNumbers()
    ensures Show(Int(500)) == "500" && Show(Int(90)) == "90" && Show(Int(7)) == "7"
  {
  }

  lemma RenderTail()
    ensures Render([Int(90)], Show) == "90 -> None"
  {
  }

  /** The texts of the example, computed on values. */
  lemma DemoTexts()
    ensures Render([Int(500), Int(90)], Show) == "500 -> 90 -> None"
    ensures Render([Str("hello"), Int(500), Int(90)], Show) == "hello -> 500 -> 90 -> None"
    ensures Remove([Str("hello"), Int(500), Int(90)], Str("hello")) == [Int(500), Int(90)]
  {
    DemoRemoval();
    ShowNumbers();
    RenderTail();
    var s := [Str("hello"), Int(500), Int(90)];
    assert s[1..] == [Int(500), Int(90)] && s[1..][1..] == [Int(90)];
    assert Render(s[1..], Show) == "500" + " -> " + "90 -> None";
    assert Render(s, Show) == "hello" + " -> " + "500 -> 90 -> None";
  }

  lemma DemoRemoval()
    ensures Remove([Str("hello"), Int(500), Int(90)], Str("hello")) == [Int(500), Int(90)]
  {
  }

  /** The texts of the repeated-head scenario, computed on values. */
  lemma RepeatedHeadTexts()
    ensures Render([Int(7), Int(90)], Show) == "7 -> 90 -> None"
    ensures Render([Int(7), Int(7), Int(90)], Show) == "7 -> 7 -> 90 -> None"
    ensures Remove([Int(7), Int(7), Int(90)], Int(7)) == [Int(7), Int(90)]
  {
    RepeatedHeadRemoval();
    ShowNumbers();
    RenderTail();
    var s := [Int(7), Int(7), Int(90)];
    assert s[1..] == [Int(7), Int(90)] && s[1..][1..] == [Int(90)];
    assert Render(s[1..], Show) == "7" + " -> " + "90 -> None";
    assert Render(s, Show) == "7" + " -> " + "7 -> 90 -> None";
  }

  /** Only the original head goes: the node that becomes the head is never
      examined. */
  lemma RepeatedHeadRemoval()
    ensures Remove([Int(7), Int(7), Int(90)], Int(7)) == [Int(7), Int(90)]
  {
  }

  /** The example: 90, then 500 and "hello" added at the beginning; the text
      before and after removing "hello". */
  method Demo() returns (before: string, after: string)
    ensures before == "hello -> 500 -> 90 -> None"
    ensures after == "500 -> 90 -> None"
  {
    DemoTexts();
    var list := new LinkedList(Int(90));
    list.AddNodeToBeginning(Int(500));
    list.AddNodeToBeginning(Str("hello"));
    assert list.Contents() == [Str("hello"), Int(500), Int(90)];
    before := list.NodeToList(Show);
    list.RemoveNode(Str("hello"));
    after := list.NodeToList(Show);
  }

  /** Two equal values at the front: only the original head goes, because
      the node that becomes the head is never examined. */
  method RepeatedHeadScenario() returns (before: string, after: string)
    ensures before == "7 -> 7 -> 90 -> None"
    ensures after == "7 -> 90 -> None"
  {
    RepeatedHeadTexts();
    var list := new LinkedList(Int(90));
    list.AddNodeToBeginning(Int(7));
    list.AddNodeToBeginning(Int(7));
    assert list.Contents() == [Int(7), Int(7), Int(90)];
    before := list.NodeToList(Show);
    list.RemoveNode(Int(7));
    after := list.NodeToList(Show);
  }
}
