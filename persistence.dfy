/** Persistence of a `SkipList<string, string>`: `dump_file` writes the
    level-0 chain as `key:value` lines, `load_file` reads lines back, splits
    each at its first `:` and re-inserts it through `insert_element`.  The
    file is modelled as its text. */
module Persistence {
  import opened Order
  import opened Arena
  import opened SkipLists

  /** `delimiter`. */
  const Delimiter: char := ':'

  /** `std::string::find(c)`: the first position of c in s, or |s| standing
      for `npos` when there is none. */
  function Find(s: string, c: char): (i: nat)
    ensures i <= |s|
    ensures i < |s| ==> s[i] == c
    ensures forall j :: 0 <= j < i ==> s[j] != c
  {
    if s == [] then 0
    else if s[0] == c then 0
    else 1 + Find(s[1..], c)
  }

  /** `is_valid_string(str)`: false for the empty line and for a line
      without the delimiter. */
  function IsValidString(str: string): (b: bool)
    ensures b <==> str != [] && Delimiter in str
  {
    if str == [] then false
    else Find(str, Delimiter) < |str|
  }

  /** `get_key_value_from_string(str, key, val)`: an invalid line gives an
      empty key and value; otherwise the key is what precedes the first
      delimiter and the value all that follows it. */
  function GetKeyValueFromString(str: string): (r: (string, string))
    ensures !IsValidString(str) ==> r == ("", "")
    ensures IsValidString(str) ==> str == r.0 + [Delimiter] + r.1 && Delimiter !in r.0
  {
    if !IsValidString(str) then ("", "")
    else
      var index := Find(str, Delimiter);
      assert str == str[..index] + [Delimiter] + str[index + 1..];
      (str[..index], str[index + 1..])
  }

  /** A key without the delimiter comes back from its line unchanged, and
      so does its value. */
  lemma ParseLine(key: string, value: string)
    requires Delimiter !in key
    ensures GetKeyValueFromString(key + [Delimiter] + value) == (key, value)
  {
    var str := key + [Delimiter] + value;
    assert str[|key|] == Delimiter;
    var r := GetKeyValueFromString(str);
    assert r.0 == str[..|key|] == key;
    assert r.1 == str[|key| + 1..] == value;
  }

  /** The lines `getline` reads from a text: it is cut at each newline,
      which is dropped; a last line without a newline still counts, and a
      final newline opens no further line. */
  function Lines(text: string): (ls: seq<string>)
    ensures forall i :: 0 <= i < |ls| ==> '\n' !in ls[i]
    decreases |text|
  {
    if text == [] then []
    else
      var i := Find(text, '\n');
      if i == |text| then [text]
      else [text[..i]] + Lines(text[i + 1..])
  }

  /** The line `dump_file` writes for one entry, without its newline. */
  function Line(e: (string, string)): string {
    e.0 + [Delimiter] + e.1
  }

  /** What `dump_file` writes for a sequence of entries. */
  function DumpText(es: seq<(string, string)>): string {
    if es == [] then [] else Line(es[0]) + ['\n'] + DumpText(es[1..])
  }

  /** Writing one more entry appends its line. */
  lemma {:induction false} DumpTextAppend(es: seq<(string, string)>, e: (string, string))
    ensures DumpText(es + [e]) == DumpText(es) + Line(e) + ['\n']
  {
    if es != [] {
      assert (es + [e])[1..] == es[1..] + [e];
      DumpTextAppend(es[1..], e);
    } else {
      assert [e][1..] == [];
    }
  }

  /** The lines of a dumped text are the entries' lines, when no key or value
      holds a newline. */
  lemma {:induction false} LinesOfDump(es: seq<(string, string)>)
    requires forall i :: 0 <= i < |es| ==> '\n' !in es[i].0 && '\n' !in es[i].1
    ensures |Lines(DumpText(es))| == |es|
    ensures forall i :: 0 <= i < |es| ==> Lines(DumpText(es))[i] == Line(es[i])
  {
    if es != [] {
      var line := Line(es[0]);
      var text := DumpText(es);
      assert text == line + ['\n'] + DumpText(es[1..]);
      assert '\n' !in line;
      assert text[|line|] == '\n';
      var i := Find(text, '\n');
      assert text[..i] == line;
      assert text[i + 1..] == DumpText(es[1..]);
      LinesOfDump(es[1..]);
    }
  }

  /** One pass of the `load_file` loop body: a line whose key or value
      comes out empty is skipped, and `insert_element` keeps the value of a
      key already present. */
  function LoadStep(m: map<string, string>, line: string): map<string, string> {
    var kv := GetKeyValueFromString(line);
    if kv.0 == [] || kv.1 == [] then m
    else if kv.0 in m then m
    else m[kv.0 := kv.1]
  }

  /** The map after `load_file` has consumed the lines in order. */
  function LoadSpec(m: map<string, string>, lines: seq<string>): map<string, string>
    decreases |lines|
  {
    if lines == [] then m else LoadSpec(LoadStep(m, lines[0]), lines[1..])
  }

  /** Loading never drops a key and never overwrites a value. */
  lemma {:induction false} LoadKeeps(m: map<string, string>, lines: seq<string>)
    ensures forall k :: k in m ==> k in LoadSpec(m, lines) && LoadSpec(m, lines)[k] == m[k]
    decreases |lines|
  {
    if lines != [] {
      LoadKeeps(LoadStep(m, lines[0]), lines[1..]);
    }
  }

  /** Every key loading adds is the key of some well-formed line. */
  lemma {:induction false} LoadAdds(m: map<string, string>, lines: seq<string>)
    ensures forall k :: k in LoadSpec(m, lines) && k !in m ==>
              exists i :: 0 <= i < |lines| && GetKeyValueFromString(lines[i]).0 == k &&
                          k != [] && GetKeyValueFromString(lines[i]).1 != []
    decreases |lines|
  {
    if lines != [] {
      var m' := LoadStep(m, lines[0]);
      LoadAdds(m', lines[1..]);
      forall k | k in LoadSpec(m, lines) && k !in m
        ensures exists i :: 0 <= i < |lines| && GetKeyValueFromString(lines[i]).0 == k &&
                            k != [] && GetKeyValueFromString(lines[i]).1 != []
      {
        if k in m' {
          assert GetKeyValueFromString(lines[0]).0 == k;
        } else {
          var i :| 0 <= i < |lines[1..]| && GetKeyValueFromString(lines[1..][i]).0 == k &&
                   k != [] && GetKeyValueFromString(lines[1..][i]).1 != [];
          assert lines[1..][i] == lines[i + 1];
        }
      }
    }
  }

  /** The map of a sequence of entries. */
  function ToMap(es: seq<(string, string)>): (m: map<string, string>)
    ensures forall k :: k in m <==> exists i :: 0 <= i < |es| && es[i].0 == k
  {
    if es == [] then map[]
    else
      var rest := ToMap(es[1..]);
      assert forall i :: 0 <= i < |es[1..]| ==> es[1..][i] == es[i + 1];
      rest[es[0].0 := es[0].1]
  }

  /** With distinct keys, each entry's value is the one the map holds. */
  lemma {:induction false} ToMapValues(es: seq<(string, string)>)
    requires forall i, j :: 0 <= i < j < |es| ==> es[i].0 != es[j].0
    ensures forall i :: 0 <= i < |es| ==> ToMap(es)[es[i].0] == es[i].1
  {
    if es != [] {
      ToMapValues(es[1..]);
      forall i | 0 <= i < |es|
        ensures ToMap(es)[es[i].0] == es[i].1
      {
        if i > 0 {
          assert es[1..][i - 1] == es[i];
        }
      }
    }
  }

  /** A key and value that survive the text format: a non-empty key with
      neither delimiter nor newline, a non-empty value without newline. */
  predicate Storable(key: string, value: string) {
    key != [] && value != [] && Delimiter !in key && '\n' !in key && '\n' !in value
  }

  /** Adding a key before a merge or after it is the same when the right
      side lacks the key. */
  lemma UpdateMerge(a: map<string, string>, b: map<string, string>, k: string, v: string)
    requires k !in b
    ensures a[k := v] + b == a + b[k := v]
  {
  }

  /** Loading the lines of storable entries with distinct keys absent from
      m adds exactly those entries. */
  lemma {:induction false} LoadLines(m: map<string, string>, es: seq<(string, string)>, lines: seq<string>)
    requires forall i :: 0 <= i < |es| ==> Storable(es[i].0, es[i].1)
    requires forall i, j :: 0 <= i < j < |es| ==> es[i].0 != es[j].0
    requires forall i :: 0 <= i < |es| ==> es[i].0 !in m
    requires |lines| == |es| && forall i :: 0 <= i < |es| ==> lines[i] == Line(es[i])
    ensures LoadSpec(m, lines) == m + ToMap(es)
    decreases |es|
  {
    if es != [] {
      var e := es[0];
      ParseLine(e.0, e.1);
      assert LoadStep(m, lines[0]) == m[e.0 := e.1];
      assert forall i :: 0 <= i < |es[1..]| ==> es[1..][i] == es[i + 1];
      LoadLines(m[e.0 := e.1], es[1..], lines[1..]);
      assert e.0 !in ToMap(es[1..]);
      UpdateMerge(m, ToMap(es[1..]), e.0, e.1);
    }
  }

  /** `dump_file`: the level-0 chain, from the header's first successor to
      the end, one `key:value` line each; nothing changes. */
  method DumpFile(list: SkipList<string, string>) returns (text: string)
    requires list.Valid()
    ensures text == DumpText(list.Entries())
  {
    ghost var s := list.State();
    LevelFacts(s, list.less, 0);
    ghost var c := list.chains[0];
    ghost var es := EntriesOf(list.nodes, c);
    ghost var p: nat := 0;
    LinkedNext(list.nodes, c, 0, 0);
    var node := list.nodes[0].forward[0];
    text := "";
    while node != None
      invariant p < |c| && node == (if p + 1 < |c| then Some(c[p + 1]) else None)
      invariant p + 1 < |c| ==> c[p + 1] < |list.nodes|
      invariant p <= |es| && text == DumpText(es[..p])
      decreases |c| - p
    {
      var n := node.value;
      var key := list.nodes[n].key;
      var value := list.nodes[n].value;
      assert es[..p + 1] == es[..p] + [(key, value)];
      DumpTextAppend(es[..p], (key, value));
      text := text + key + [Delimiter] + value + ['\n'];
      p := p + 1;
      LinkedNext(list.nodes, c, 0, p);
      node := list.nodes[n].forward[0];
    }
    assert es[..p] == es;
  }

  /** `load_file`: each line `getline` yields is split; one with an empty
      key or value is skipped, the others go through `insert_element` in
      order.  coins[i] stands for the `rand()` outcomes drawn while inserting
      the i-th line (none when coins is shorter). */
  method LoadFile(list: SkipList<string, string>, text: string, coins: seq<seq<bool>>)
    requires list.Valid()
    modifies list
    ensures list.Valid()
    ensures list.contents == LoadSpec(old(list.contents), Lines(text))
  {
    var rest := text;
    var n := 0;
    while rest != []
      invariant list.Valid()
      invariant LoadSpec(list.contents, Lines(rest)) == LoadSpec(old(list.contents), Lines(text))
      decreases |rest|
    {
      var i := Find(rest, '\n');
      var line := rest[..i];
      ghost var before := list.contents;
      ghost var unread := rest;
      if i == |rest| {
        assert line == rest;
        rest := [];
      } else {
        rest := rest[i + 1..];
      }
      assert Lines(unread) == [line] + Lines(rest);
      var kv := GetKeyValueFromString(line);
      var key, value := kv.0, kv.1;
      if key != [] && value != [] {
        var draw := if n < |coins| then coins[n] else [];
        var _ := list.Insert(key, value, draw);
      }
      assert list.contents == LoadStep(before, line);
      n := n + 1;
    }
  }

  /** Distinct entries that agree with a map and cover it make up that map. */
  lemma ToMapOf(es: seq<(string, string)>, contents: map<string, string>)
    requires forall i, j :: 0 <= i < j < |es| ==> es[i].0 != es[j].0
    requires forall i :: 0 <= i < |es| ==> es[i].0 in contents && contents[es[i].0] == es[i].1
    requires forall k :: k in contents ==> exists i :: 0 <= i < |es| && es[i].0 == k
    ensures ToMap(es) == contents
  {
    ToMapValues(es);
    var tm := ToMap(es);
    forall k | k in tm
      ensures k in contents && tm[k] == contents[k]
    {
      var i :| 0 <= i < |es| && es[i].0 == k;
    }
    forall k | k in contents
      ensures k in tm
    {
      var i :| 0 <= i < |es| && es[i].0 == k;
    }
    MapEq(tm, contents);
  }

  /** Maps with the same keys and the same value at each key are equal. */
  lemma MapEq(a: map<string, string>, b: map<string, string>)
    requires forall k :: k in a ==> k in b && a[k] == b[k]
    requires forall k :: k in b ==> k in a
    ensures a == b
  {
    assert a.Keys == b.Keys;
  }

  /** Merging into the empty map changes nothing. */
  lemma EmptyMerge(b: map<string, string>)
    ensures map[] + b == b
  {
  }

  /** Round trip on entries: the dumped text of distinct storable entries
      loads, from empty, into the map they make up. */
  lemma LoadDump(es: seq<(string, string)>, contents: map<string, string>)
    requires forall i, j :: 0 <= i < j < |es| ==> es[i].0 != es[j].0
    requires forall i :: 0 <= i < |es| ==> es[i].0 in contents && contents[es[i].0] == es[i].1
    requires forall k :: k in contents ==> exists i :: 0 <= i < |es| && es[i].0 == k
    requires forall k :: k in contents ==> Storable(k, contents[k])
    ensures LoadSpec(map[], Lines(DumpText(es))) == contents
  {
    assert forall i :: 0 <= i < |es| ==> Storable(es[i].0, es[i].1);
    LinesOfDump(es);
    LoadLines(map[], es, Lines(DumpText(es)));
    ToMapOf(es, contents);
    EmptyMerge(contents);
  }

  /** Dump followed by load into an empty list gives back the map, when
      every key and value is storable. */
  lemma DumpThenLoad(list: SkipList<string, string>)
    requires list.Valid()
    requires forall k :: k in list.contents ==> Storable(k, list.contents[k])
    ensures LoadSpec(map[], Lines(DumpText(list.Entries()))) == list.contents
  {
    var s := list.State();
    EntriesAbstract(s, list.less);
    StateBasics(s, list.less);
    var es := EntriesOf(s.nodes, s.chains[0]);
    forall i, j | 0 <= i < j < |es|
      ensures es[i].0 != es[j].0
    {
      assert list.less(es[i].0, es[j].0);
    }
    LoadDump(es, s.contents);
  }

  /** `dump_file` then `load_file` into a new list of the same height: the
      copy stands for the same map. */
  method DumpAndReload(list: SkipList<string, string>, coins: seq<seq<bool>>)
    returns (copy: SkipList<string, string>)
    requires list.Valid()
    requires forall k :: k in list.contents ==> Storable(k, list.contents[k])
    ensures fresh(copy) && copy.Valid()
    ensures copy.contents == list.contents
  {
    var text := DumpFile(list);
    StateBasics(list.State(), list.less);
    copy := new SkipList(list.maxLevel, list.less);
    LoadFile(copy, text, coins);
    DumpThenLoad(list);
  }
  /** Every entry a load puts in the map survives the line format: its key
      comes from before the first delimiter of a line, and no line holds a
      newline. */
  lemma {:induction false} LoadStorable(m: map<string, string>, lines: seq<string>)
    requires forall k :: k in m ==> Storable(k, m[k])
    requires forall i :: 0 <= i < |lines| ==> '\n' !in lines[i]
    ensures forall k :: k in LoadSpec(m, lines) ==> Storable(k, LoadSpec(m, lines)[k])
    decreases |lines|
  {
    if lines != [] {
      var line := lines[0];
      var kv := GetKeyValueFromString(line);
      if kv.0 != [] && kv.1 != [] && kv.0 !in m {
        assert IsValidString(line);
        assert line == kv.0 + [Delimiter] + kv.1;
        forall c | c in kv.0 ensures c != '\n' {
          var j :| 0 <= j < |kv.0| && kv.0[j] == c;
          assert line[j] == c;
        }
        forall c | c in kv.1 ensures c != '\n' {
          var j :| 0 <= j < |kv.1| && kv.1[j] == c;
          assert line[|kv.0| + 1 + j] == c;
        }
      }
      forall i | 0 <= i < |lines[1..]| ensures '\n' !in lines[1..][i] {
        assert lines[1..][i] == lines[i + 1];
      }
      LoadStorable(LoadStep(m, line), lines[1..]);
    }
  }

  /** The persistence cycle of a `SkipList<std::string, std::string>`,
      ordered by `std::string::operator<`: `load_file` a text into a new
      list, `dump_file` it and `load_file` the dump into another new list;
      both hold the map the text's lines fold to. */
  method LoadDumpLoad(maxLevel: nat, text: string, coins: seq<seq<bool>>, moreCoins: seq<seq<bool>>)
    returns (list: SkipList<string, string>, copy: SkipList<string, string>)
    ensures list.Valid() && copy.Valid()
    ensures list.less == StringLess && list.maxLevel == maxLevel
    ensures list.contents == LoadSpec(map[], Lines(text))
    ensures copy.contents == list.contents
  {
    StringLessIsStrictTotalOrder();
    list := new SkipList<string, string>(maxLevel, StringLess);
    LoadFile(list, text, coins);
    LoadStorable(map[], Lines(text));
    copy := DumpAndReload(list, moreCoins);
  }
}
