/** The demonstration driver `main.cpp`: a `SkipList<int, std::string>` of
    height 6 receives the keys 1, 3, 7, 8, 9 and 19, then 19 again. */
module Demo {
  import opened Order
  import opened SkipLists

  /** The `rand()` outcomes of the i-th insertion, none when coins is
      shorter. */
  function Draw(coins: seq<seq<bool>>, i: nat): seq<bool> {
    if i < |coins| then coins[i] else []
  }

  /** The five insertions before `display_list()`, each of a new key. */
  method FirstFive(coins: seq<seq<bool>>) returns (list: SkipList<int, string>, results: seq<int>)
    ensures fresh(list) && list.Valid() && list.less == IntLess && list.maxLevel == 6
    ensures list.contents == map[1 := "pppp", 3 := "cccc", 7 := "7777", 8 := "qqqq", 9 := "llll"]
    ensures results == [0, 0, 0, 0, 0]
  {
    IntLessIsStrictTotalOrder();
    list := new SkipList<int, string>(6, IntLess);
    var r1 := list.Insert(1, "pppp", Draw(coins, 0));
    assert list.contents == map[1 := "pppp"];
    var r3 := list.Insert(3, "cccc", Draw(coins, 1));
    assert list.contents == map[1 := "pppp", 3 := "cccc"];
    var r7 := list.Insert(7, "7777", Draw(coins, 2));
    assert list.contents == map[1 := "pppp", 3 := "cccc", 7 := "7777"];
    var r8 := list.Insert(8, "qqqq", Draw(coins, 3));
    assert list.contents == map[1 := "pppp", 3 := "cccc", 7 := "7777", 8 := "qqqq"];
    var r9 := list.Insert(9, "llll", Draw(coins, 4));
    results := [r1, r3, r7, r8, r9];
  }

  /** Whatever levels the insertions draw, the repeated 19 is refused with 1,
      the size is then 6, and 19 keeps its first value. */
  method MainScenario(coins: seq<seq<bool>>) returns (list: SkipList<int, string>, last: int, size: nat)
    ensures last == 1 && size == 6
    ensures list.Valid()
    ensures list.contents == map[1 := "pppp", 3 := "cccc", 7 := "7777", 8 := "qqqq", 9 := "llll", 19 := "zzzz"]
  {
    var results;
    list, results := FirstFive(coins);
    var r := list.Insert(19, "zzzz", Draw(coins, 5));
    assert list.contents == map[1 := "pppp", 3 := "cccc", 7 := "7777", 8 := "qqqq", 9 := "llll", 19 := "zzzz"];
    last := list.Insert(19, "dddd", Draw(coins, 6));
    size := list.Size();
  }
}
