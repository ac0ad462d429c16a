/** A worked example of the segment tree: the arenas three registrations build, and why an
    earlier route need not keep its handlers after a later one. */
module TrieExample {
  import opened Wrappers
  import opened Strings
  import opened Http
  import opened Trie

  const Root0: Node := Node(false, "", [], [1])
  const Root1: Node := Node(false, "", [], [1, 2])
  const P: Node := Node(true, "P", [Handler(0)], [])
  const Id: Node := Node(false, ":id", [], [])
  const K: Node := Node(true, "K", [Handler(1)], [])
  const Q: Node := Node(true, "Q", [Handler(2)], [])

  /** After registering "P". */
  const T1: seq<Node> := [Root0, P]
  /** After registering ":id/K". */
  const T2: seq<Node> := [Root1, P, Id.(childs := [3]), K]
  /** After registering "P/Q". */
  const T3: seq<Node> := [Root1, P.(childs := [4]), Id.(childs := [3]), K, Q]

  lemma ExampleSegments()
    ensures CanonSegments("P") == ["P"]
    ensures CanonSegments(":id/K") == [":id", "K"]
    ensures CanonSegments("P/Q") == ["P", "Q"]
  {
    SplitFirstAt(":id", '/', "K");
    assert ":id/K" == ":id" + "/" + "K";
    assert IsWild(":id");
    SplitFirstAt("P", '/', "Q");
    assert "P/Q" == "P" + "/" + "Q";
  }

  lemma InsertFirst()
    ensures Insert([EmptyNode], Root, ["P"], [Handler(0)]) == T1
  {
    var g := Graft([EmptyNode], Root, NewNode("P", true, [Handler(0)]));
    assert g[0] == Root0;
    assert g == T1;
  }

  lemma InsertSecond()
    ensures Insert(T1, Root, [":id", "K"], [Handler(1)]) == T2
  {
    var t := [Root1, P, Id];
    assert FindChild(T1, Root, ":id").None?;
    var g1 := Graft(T1, Root, NewNode(":id", false, [Handler(1)]));
    assert g1[0] == Root1;
    assert g1 == t;
    assert FindChild(t, 2, "K").None?;
    var g2 := Graft(t, 2, NewNode("K", true, [Handler(1)]));
    assert g2[2] == Id.(childs := [3]);
    assert g2 == T2;
  }

  lemma InsertThird()
    ensures Insert(T2, Root, ["P", "Q"], [Handler(2)]) == T3
  {
    assert FindChild(T2, Root, "P") == Some(1);
    assert FindChild(T2, 1, "Q").None?;
    var g := Graft(T2, 1, NewNode("Q", true, [Handler(2)]));
    assert g[1] == P.(childs := [4]);
    assert g == T3;
  }

  lemma MatchesOfSecond()
    ensures Match(T1, Root, ":id/K").None?
  {
    SplitFirstAt(":id", '/', "K");
    assert ":id/K" == ":id" + "/" + "K";
    assert Match(T1, 1, "K").None?;
  }

  lemma MatchesOfThird()
    ensures Match(T2, Root, "P/Q").None?
  {
    SplitFirstAt("P", '/', "Q");
    assert "P/Q" == "P" + "/" + "Q";
    assert Canon("P") == "P";
    FilterOfP();
    NoMatchUnderFirst();
    NoMatchUnderSecond();
    FirstMatchSkips(T2, [1, 2], "Q");
    assert [1, 2][1..] == [2];
    FirstMatchSkips(T2, [2], "Q");
    assert [2][1..] == [];
  }

  lemma FilterOfP()
    ensures Filter(T2, [1, 2], "P") == [1, 2]
  {
    assert [1, 2][1..] == [2] && [2][1..] == [];
    assert IsWild(":id");
    assert Keep(T2, [2], "P") == [2];
  }

  lemma FilterOfPAfter()
    ensures Filter(T3, [1, 2], "P") == [1, 2]
  {
    assert [1, 2][1..] == [2] && [2][1..] == [];
    assert IsWild(":id");
    assert Keep(T3, [2], "P") == [2];
  }

  lemma NoMatchUnderFirst()
    ensures Match(T2, 1, "Q").None?
  {
    assert Filter(T2, [], "Q") == [];
  }

  lemma NoMatchUnderSecond()
    ensures Match(T2, 2, "Q").None?
  {
    assert "Q"[1..] == "";
    assert !IsWild("K") by {
      assert "K"[..1][0] == 'K';
    }
    assert [3][1..] == [];
    assert Keep(T2, [3], "Q") == [];
  }

  lemma LastSegmentZ()
    ensures SplitFirst(":z", '/') == (":z", None)
  {
    assert ":z"[1..] == "z" && "z"[1..] == "";
  }

  lemma RequestBefore()
    ensures Match(T2, Root, "P/:z") == Some(3)
  {
    SplitFirstAt("P", '/', ":z");
    assert "P/:z" == "P" + "/" + ":z";
    assert Canon("P") == "P";
    FilterOfP();
    assert IsWild(":z");
    assert Match(T2, 1, ":z").None? by {
      assert Filter(T2, [], ":z") == [];
    }
    assert Match(T2, 2, ":z") == Some(3) by {
      LastSegmentZ();
      assert Filter(T2, [3], ":z") == [3];
    }
    assert FirstMatch(T2, [1, 2], ":z") == Some(3) by {
      FirstMatchPicksFirst(T2, [1, 2], ":z", 1);
    }
  }

  lemma RequestAfter()
    ensures Match(T3, Root, "P/:z") == Some(4)
  {
    SplitFirstAt("P", '/', ":z");
    assert "P/:z" == "P" + "/" + ":z";
    assert Canon("P") == "P";
    FilterOfPAfter();
    assert IsWild(":z");
    assert Match(T3, 1, ":z") == Some(4) by {
      LastSegmentZ();
      assert Filter(T3, [4], ":z") == [4];
    }
    assert FirstMatch(T3, [1, 2], ":z") == Some(4) by {
      FirstMatchPicksFirst(T3, [1, 2], ":z", 0);
    }
  }

  /** Routes "P" and ":id/K" are registered, then "P/Q" passes the conflict check; the
      request "P/:z", which reached the handlers of ":id/K", now reaches those of "P/Q",
      because a request segment starting with ':' selects every child. */
  lemma LaterRouteCanShadow()
    ensures var t1 := Insert([EmptyNode], Root, CanonSegments("P"), [Handler(0)]);
            var t2 := Insert(t1, Root, CanonSegments(":id/K"), [Handler(1)]);
            var t3 := Insert(t2, Root, CanonSegments("P/Q"), [Handler(2)]);
            && Match(t1, Root, ":id/K").None?
            && Match(t2, Root, "P/Q").None?
            && FindHandler(t2, "P/:z") == [Handler(1)]
            && FindHandler(t3, "P/:z") == [Handler(2)]
  {
    ExampleSegments();
    InsertFirst();
    InsertSecond();
    InsertThird();
    MatchesOfSecond();
    MatchesOfThird();
    RequestBefore();
    RequestAfter();
  }
}
