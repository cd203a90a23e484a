/** The CodeQL Action v2 to v3 migration table and the rewrite of one workflow text:
    each table entry is applied in turn with `str.replace`. */
module CodeqlUpdates {
  import opened TextReplace

  const InitV2 := "uses: github/codeql-action/init@v2"
  const InitV3 := "uses: github/codeql-action/init@v3"
  const AnalyzeV2 := "uses: github/codeql-action/analyze@v2"
  const AnalyzeV3 := "uses: github/codeql-action/analyze@v3"
  const AutobuildV2 := "uses: github/codeql-action/autobuild@v2"
  const AutobuildV3 := "uses: github/codeql-action/autobuild@v3"

  /** The old-to-new pairs, in the order the dictionary literal lists them (Python
      dictionaries iterate in insertion order). */
  const Updates: seq<(string, string)> :=
    [(InitV2, InitV3), (AnalyzeV2, AnalyzeV3), (AutobuildV2, AutobuildV3)]

  /** Applies every pair of `table` to `s`, first pair first. */
  function ApplyTable(s: string, table: seq<(string, string)>): (r: string)
    ensures (forall k :: 0 <= k < |table| ==> |table[k].0| == |table[k].1|) ==> |r| == |s|
    decreases |table|
  {
    if table == [] then s
    else
      var last := table[|table| - 1];
      ReplaceAll(ApplyTable(s, table[..|table| - 1]), last.0, last.1)
  }

  /** Every entry of `table` turns its key into its value by changing the key's last
      character to `c`, which no key contains. */
  predicate TableBumpsTo(table: seq<(string, string)>, c: char)
  {
    forall k :: 0 <= k < |table| ==>
      BumpsLast(table[k].0, table[k].1) && table[k].1[|table[k].0| - 1] == c
  }

  /** Some key of `table` occurs in `s`. */
  predicate ContainsSomeKey(s: string, table: seq<(string, string)>)
  {
    exists k | 0 <= k < |table| :: Contains(s, table[k].0)
  }

  /** A key of `table` ends at index `i` of `s`. */
  predicate KeyEndsAt(s: string, table: seq<(string, string)>, i: int)
  {
    exists k | 0 <= k < |table| :: OccursAt(s, table[k].0, i - |table[k].0| + 1)
  }

  lemma TableBumpsToPrefix(table: seq<(string, string)>, c: char)
    requires TableBumpsTo(table, c) && table != []
    ensures TableBumpsTo(table[..|table| - 1], c)
    ensures BumpsLast(table[|table| - 1].0, table[|table| - 1].1)
    ensures table[|table| - 1].1[|table[|table| - 1].0| - 1] == c && c !in table[|table| - 1].0
  {
    assert forall k :: 0 <= k < |table| - 1 ==> table[..|table| - 1][k] == table[k];
  }

  /** Applying a bump table only turns characters into `c`, and only at the last index
      of some key occurrence in the input. */
  lemma {:induction false} ApplyTableChangesOnlyKeyEnds(s: string, table: seq<(string, string)>, c: char)
    requires TableBumpsTo(table, c)
    ensures var r := ApplyTable(s, table);
      OnlyWrites(s, r, c) && forall i :: 0 <= i < |s| && r[i] != s[i] ==> KeyEndsAt(s, table, i)
    decreases |table|
  {
    if table != [] {
      var front := table[..|table| - 1];
      var (key, value) := table[|table| - 1];
      var mid := ApplyTable(s, front);
      var r := ApplyTable(s, table);
      TableBumpsToPrefix(table, c);
      ApplyTableChangesOnlyKeyEnds(s, front, c);
      ReplaceAllChangesOnlyMatchEnds(mid, key, value);
      OnlyWritesTrans(s, mid, r, c);
      forall i | 0 <= i < |s| && r[i] != s[i]
        ensures KeyEndsAt(s, table, i)
      {
        if r[i] != mid[i] {
          OccurrenceWasThere(s, mid, c, key, i - |key| + 1);
          assert OccursAt(s, table[|table| - 1].0, i - |key| + 1);
        } else {
          var k :| 0 <= k < |front| && OccursAt(s, front[k].0, i - |front[k].0| + 1);
          assert front[k] == table[k];
        }
      }
    }
  }

  /** After a bump table has been applied, none of its keys occurs. */
  lemma {:induction false} ApplyTableRemovesKeys(s: string, table: seq<(string, string)>, c: char)
    requires TableBumpsTo(table, c)
    ensures !ContainsSomeKey(ApplyTable(s, table), table)
    decreases |table|
  {
    if table != [] {
      var front := table[..|table| - 1];
      var (key, value) := table[|table| - 1];
      var mid := ApplyTable(s, front);
      var r := ApplyTable(s, table);
      TableBumpsToPrefix(table, c);
      ApplyTableRemovesKeys(s, front, c);
      ReplaceAllOnlyWrites(mid, key, value);
      ReplaceAllRemoves(mid, key, value);
      forall k | 0 <= k < |table| - 1
        ensures !Contains(r, table[k].0)
      {
        assert front[k] == table[k];
        NoNewContains(mid, r, c, table[k].0);
      }
    }
  }

  /** A text holding no key of a bump table comes out of it unchanged. */
  lemma {:induction false} ApplyTableKeepsKeyFree(s: string, table: seq<(string, string)>, c: char)
    requires TableBumpsTo(table, c) && !ContainsSomeKey(s, table)
    ensures ApplyTable(s, table) == s
    decreases |table|
  {
    if table != [] {
      var front := table[..|table| - 1];
      var (key, value) := table[|table| - 1];
      TableBumpsToPrefix(table, c);
      assert forall k :: 0 <= k < |front| ==> front[k] == table[k];
      ApplyTableKeepsKeyFree(s, front, c);
      ReplaceAllUnchangedIff(s, key, value);
    }
  }

  /** A text holding some key of a bump table is changed by it. */
  lemma {:induction false} ApplyTableChangesKeyed(s: string, table: seq<(string, string)>, c: char)
    requires TableBumpsTo(table, c) && ContainsSomeKey(s, table)
    ensures ApplyTable(s, table) != s
    decreases |table|
  {
    var front := table[..|table| - 1];
    var (key, value) := table[|table| - 1];
    var mid := ApplyTable(s, front);
    var r := ApplyTable(s, table);
    TableBumpsToPrefix(table, c);
    ApplyTableChangesOnlyKeyEnds(s, front, c);
    ReplaceAllOnlyWrites(mid, key, value);
    OnlyWritesTrans(s, mid, r, c);
    var k :| 0 <= k < |table| && Contains(s, table[k].0);
    if k < |table| - 1 {
      assert front[k] == table[k];
      ApplyTableChangesKeyed(s, front, c);
    } else if mid == s {
      ReplaceAllUnchangedIff(mid, key, value);
    }
  }

  /** Applying a bump table a second time changes nothing. */
  lemma ApplyTableIdempotent(s: string, table: seq<(string, string)>, c: char)
    requires TableBumpsTo(table, c)
    ensures ApplyTable(ApplyTable(s, table), table) == ApplyTable(s, table)
  {
    ApplyTableRemovesKeys(s, table, c);
    ApplyTableKeepsKeyFree(ApplyTable(s, table), table, c);
  }

  /** The rewrite the migrator applies to every workflow text. */
  function Rewrite(content: string): (r: string)
    ensures |r| == |content|
  {
    ApplyTable(content, Updates)
  }

  lemma InitBumpsTo3()
    ensures BumpsLast(InitV2, InitV3) && InitV3[|InitV2| - 1] == '3'
  {
    assert '3' !in InitV2;
    assert InitV3[..|InitV2| - 1] == InitV2[..|InitV2| - 1];
  }

  lemma AnalyzeBumpsTo3()
    ensures BumpsLast(AnalyzeV2, AnalyzeV3) && AnalyzeV3[|AnalyzeV2| - 1] == '3'
  {
    assert '3' !in AnalyzeV2;
    assert AnalyzeV3[..|AnalyzeV2| - 1] == AnalyzeV2[..|AnalyzeV2| - 1];
  }

  lemma AutobuildBumpsTo3()
    ensures BumpsLast(AutobuildV2, AutobuildV3) && AutobuildV3[|AutobuildV2| - 1] == '3'
  {
    assert '3' !in AutobuildV2;
    assert AutobuildV3[..|AutobuildV2| - 1] == AutobuildV2[..|AutobuildV2| - 1];
  }

  /** Each v2 key becomes its v3 value by changing its final `2` to `3`, and no key
      contains a `3`. */
  lemma UpdatesBumpTo3()
    ensures TableBumpsTo(Updates, '3')
  {
    InitBumpsTo3();
    AnalyzeBumpsTo3();
    AutobuildBumpsTo3();
  }

  /** One of the three v2 keys occurs in `s`. */
  predicate HasV2Key(s: string)
  {
    Contains(s, InitV2) || Contains(s, AnalyzeV2) || Contains(s, AutobuildV2)
  }

  lemma HasV2KeyIsSomeKey(s: string)
    ensures HasV2Key(s) <==> ContainsSomeKey(s, Updates)
  {
    if HasV2Key(s) {
      if Contains(s, InitV2) {
        assert Contains(s, Updates[0].0);
      } else if Contains(s, AnalyzeV2) {
        assert Contains(s, Updates[1].0);
      } else {
        assert Contains(s, Updates[2].0);
      }
    }
  }

  /** No v2 key survives the rewrite. */
  lemma RewriteRemovesV2Keys(s: string)
    ensures !HasV2Key(Rewrite(s))
  {
    UpdatesBumpTo3();
    ApplyTableRemovesKeys(s, Updates, '3');
    HasV2KeyIsSomeKey(Rewrite(s));
  }

  /** Rewriting already rewritten content returns it unchanged. */
  lemma RewriteIdempotent(s: string)
    ensures Rewrite(Rewrite(s)) == Rewrite(s)
  {
    UpdatesBumpTo3();
    ApplyTableIdempotent(s, Updates, '3');
  }

  /** The rewrite changes a text exactly when one of the v2 keys occurs in it. */
  lemma RewriteChangesIff(s: string)
    ensures Rewrite(s) != s <==> HasV2Key(s)
  {
    UpdatesBumpTo3();
    HasV2KeyIsSomeKey(s);
    if HasV2Key(s) {
      ApplyTableChangesKeyed(s, Updates, '3');
    } else {
      ApplyTableKeepsKeyFree(s, Updates, '3');
    }
  }

  /** The character that closes an occurrence of `key` is the key's last character. */
  lemma OccurrenceEnd(s: string, key: string, i: int)
    requires key != [] && OccursAt(s, key, i - |key| + 1)
    ensures 0 <= i < |s| && s[i] == key[|key| - 1]
  {
    assert s[i] == s[i - |key| + 1..i + 1][|key| - 1];
  }

  /** A key of the migration table ends at `i`: one of the three v2 keys. */
  lemma V2KeyEndsAt(s: string, i: int)
    requires KeyEndsAt(s, Updates, i)
    ensures 0 <= i < |s| && s[i] == '2'
    ensures OccursAt(s, InitV2, i - |InitV2| + 1) || OccursAt(s, AnalyzeV2, i - |AnalyzeV2| + 1) ||
            OccursAt(s, AutobuildV2, i - |AutobuildV2| + 1)
  {
    var k :| 0 <= k < |Updates| && OccursAt(s, Updates[k].0, i - |Updates[k].0| + 1);
    if k == 0 {
      OccurrenceEnd(s, InitV2, i);
    } else if k == 1 {
      OccurrenceEnd(s, AnalyzeV2, i);
    } else {
      OccurrenceEnd(s, AutobuildV2, i);
    }
  }

  /** One of the three v2 keys occurs in `s` and ends at index `i`. */
  predicate V2KeyClosesAt(s: string, i: int)
  {
    OccursAt(s, InitV2, i - |InitV2| + 1) || OccursAt(s, AnalyzeV2, i - |AnalyzeV2| + 1) ||
    OccursAt(s, AutobuildV2, i - |AutobuildV2| + 1)
  }

  /** The rewrite keeps the length of the text and changes only a `2` that ends a
      v2 key occurrence in the input, turning it into a `3`. */
  lemma RewriteChangesOnlyVersionDigits(s: string)
    ensures var r := Rewrite(s);
      |r| == |s| &&
      forall i :: 0 <= i < |s| && r[i] != s[i] ==> s[i] == '2' && r[i] == '3' && V2KeyClosesAt(s, i)
  {
    var r := Rewrite(s);
    UpdatesBumpTo3();
    ApplyTableChangesOnlyKeyEnds(s, Updates, '3');
    forall i | 0 <= i < |s| && r[i] != s[i]
      ensures s[i] == '2' && r[i] == '3' && V2KeyClosesAt(s, i)
    {
      V2KeyEndsAt(s, i);
    }
  }

  /** A key written as a `2`-free prefix followed by `2` holds its only `2` last. */
  lemma OneTwoAtEnd(key: string, prefix: string)
    requires key == prefix + "2" && '2' !in prefix
    ensures forall k :: 0 <= k < |key| - 1 ==> key[k] != '2'
  {
    forall k | 0 <= k < |key| - 1
      ensures key[k] != '2'
    {
      assert key[k] == prefix[k];
    }
  }

  /** Every v2 key holds its only `2` at its last index. */
  lemma V2KeysHoldOneTwo()
    ensures forall k :: 0 <= k < |InitV2| - 1 ==> InitV2[k] != '2'
    ensures forall k :: 0 <= k < |AnalyzeV2| - 1 ==> AnalyzeV2[k] != '2'
    ensures forall k :: 0 <= k < |AutobuildV2| - 1 ==> AutobuildV2[k] != '2'
  {
    OneTwoAtEnd(InitV2, "uses: github/codeql-action/init@v");
    OneTwoAtEnd(AnalyzeV2, "uses: github/codeql-action/analyze@v");
    OneTwoAtEnd(AutobuildV2, "uses: github/codeql-action/autobuild@v");
  }

  /** Every occurrence of a v2 key in the input has its closing `2` turned into `3`
      in the output, at the same place. */
  lemma RewriteBumpsEveryV2Key(s: string, key: string, p: int)
    requires key == InitV2 || key == AnalyzeV2 || key == AutobuildV2
    requires OccursAt(s, key, p)
    ensures |Rewrite(s)| == |s| && Rewrite(s)[p + |key| - 1] == '3'
  {
    var r := Rewrite(s);
    var n := |key|;
    RewriteChangesOnlyVersionDigits(s);
    RewriteRemovesV2Keys(s);
    V2KeysHoldOneTwo();
    assert !OccursAt(r, key, p);
    assert r[p..p + n] != key;
    var k :| 0 <= k < n && r[p..p + n][k] != key[k];
    assert r[p + k] == r[p..p + n][k];
    assert s[p + k] == s[p..p + n][k] == key[k];
    assert k == n - 1;
  }

  /** Wherever a v2 key of the input closes, the output holds a `3`. */
  lemma RewriteBumpsKeyEnd(s: string, i: int)
    requires V2KeyClosesAt(s, i)
    ensures 0 <= i < |Rewrite(s)| && Rewrite(s)[i] == '3'
  {
    if OccursAt(s, InitV2, i - |InitV2| + 1) {
      RewriteBumpsEveryV2Key(s, InitV2, i - |InitV2| + 1);
    } else if OccursAt(s, AnalyzeV2, i - |AnalyzeV2| + 1) {
      RewriteBumpsEveryV2Key(s, AnalyzeV2, i - |AnalyzeV2| + 1);
    } else {
      RewriteBumpsEveryV2Key(s, AutobuildV2, i - |AutobuildV2| + 1);
    }
  }

  /** The rewrite, character by character: a `3` where a v2 key of the input closes,
      and the input's character everywhere else. */
  lemma RewriteAt(s: string)
    ensures |Rewrite(s)| == |s|
    ensures forall i :: 0 <= i < |s| ==> Rewrite(s)[i] == if V2KeyClosesAt(s, i) then '3' else s[i]
  {
    RewriteChangesOnlyVersionDigits(s);
    forall i | 0 <= i < |s| && V2KeyClosesAt(s, i)
      ensures Rewrite(s)[i] == '3'
    {
      RewriteBumpsKeyEnd(s, i);
    }
  }

  /** The rewrite writes no character other than `3`: a character absent from the
      input and other than `3` is absent from the output. */
  lemma RewriteAddsOnly3(s: string, x: char)
    requires x !in s && x != '3'
    ensures x !in Rewrite(s)
  {
    var r := Rewrite(s);
    UpdatesBumpTo3();
    ApplyTableChangesOnlyKeyEnds(s, Updates, '3');
    forall i | 0 <= i < |r|
      ensures r[i] != x
    {
      assert r[i] == s[i] || r[i] == '3';
    }
  }

  /** A newer version reference holds no v2 key and is left untouched. */
  lemma RewriteKeepsNewerVersion()
    ensures Rewrite("uses: github/codeql-action/init@v4") == "uses: github/codeql-action/init@v4"
  {
    var s := "uses: github/codeql-action/init@v4";
    assert !OccursAt(s, InitV2, 0) by { assert s[33] != InitV2[33]; }
    assert !Contains(s, InitV2);
    RewriteChangesIff(s);
  }

  /** The rewrite is the three `str.replace` calls in table order. */
  lemma RewriteUnfolds(s: string)
    ensures Rewrite(s) ==
      ReplaceAll(ReplaceAll(ReplaceAll(s, InitV2, InitV3), AnalyzeV2, AnalyzeV3), AutobuildV2, AutobuildV3)
  {
    assert Updates[..2][..1] == Updates[..1] && Updates[..1][..0] == [];
    assert ApplyTable(s, Updates[..1]) == ReplaceAll(s, InitV2, InitV3);
    assert ApplyTable(s, Updates[..2]) == ReplaceAll(ApplyTable(s, Updates[..1]), AnalyzeV2, AnalyzeV3);
    assert Updates[..|Updates| - 1] == Updates[..2];
  }

  /** A v2 key closes only where the text holds a `2`. */
  lemma V2KeyClosesOnTwo(s: string)
    ensures forall i :: V2KeyClosesAt(s, i) ==> 0 <= i < |s| && s[i] == '2'
  {
    forall i | V2KeyClosesAt(s, i)
      ensures 0 <= i < |s| && s[i] == '2'
    {
      if OccursAt(s, InitV2, i - |InitV2| + 1) {
        OccurrenceEnd(s, InitV2, i);
      } else if OccursAt(s, AnalyzeV2, i - |AnalyzeV2| + 1) {
        OccurrenceEnd(s, AnalyzeV2, i);
      } else {
        OccurrenceEnd(s, AutobuildV2, i);
      }
    }
  }

  /** A line that is exactly one v2 key is rewritten to exactly its v3 value. */
  lemma RewriteV2Line(key: string, value: string)
    requires (key, value) in Updates
    ensures Rewrite(key) == value
  {
    UpdatesBumpTo3();
    V2KeysHoldOneTwo();
    RewriteAt(key);
    V2KeyClosesOnTwo(key);
    var n := |key|;
    assert key[0..n] == key;
    assert V2KeyClosesAt(key, n - 1);
    forall i | 0 <= i < n - 1
      ensures Rewrite(key)[i] == value[i]
    {
      assert value[i] == value[..n - 1][i] == key[..n - 1][i];
    }
  }

  /** Each of the three v2 lines becomes its v3 line. */
  lemma RewriteV2Lines()
    ensures Rewrite(InitV2) == InitV3
    ensures Rewrite(AnalyzeV2) == AnalyzeV3
    ensures Rewrite(AutobuildV2) == AutobuildV3
  {
    RewriteV2Line(InitV2, InitV3);
    RewriteV2Line(AnalyzeV2, AnalyzeV3);
    RewriteV2Line(AutobuildV2, AutobuildV3);
  }

  /** The loop of the source: start from the file content and apply each table pair in
      turn. */
  method RewriteContent(content: string) returns (newContent: string)
    ensures newContent == Rewrite(content)
  {
    newContent := content;
    var k := 0;
    while k < |Updates|
      invariant 0 <= k <= |Updates|
      invariant newContent == ApplyTable(content, Updates[..k])
    {
      var (oldAction, newAction) := Updates[k];
      assert Updates[..k + 1][..k] == Updates[..k];
      newContent := ReplaceAll(newContent, oldAction, newAction);
      k := k + 1;
    }
    assert Updates[..k] == Updates;
  }
}
