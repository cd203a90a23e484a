/** The file-name filter of the workflow scan: `Path.glob("*.y*ml")` in one directory,
    that is, shell-style matching of one name against a pattern whose only wildcard is
    `*` (any run of characters, possibly empty, dots included). */
module Glob {

  /** `name` matches `pat`, where `*` stands for any string and every other character
      stands for itself. */
  predicate WildMatch(pat: string, name: string): (r: bool)
    ensures '*' !in pat ==> (r <==> name == pat)
    decreases |pat| + |name|
  {
    if pat == [] then name == []
    else if pat[0] == '*' then
      WildMatch(pat[1..], name) || (name != [] && WildMatch(pat, name[1..]))
    else name != [] && name[0] == pat[0] && WildMatch(pat[1..], name[1..])
  }

  /** The pattern the migrator scans `.github/workflows` with. */
  const WorkflowPattern := "*.y*ml"

  /** A directory entry the migrator reads and may rewrite: exactly the names of the
      reference reading `YamlGlobName`. */
  predicate IsWorkflowFile(name: string): (r: bool)
    ensures r <==> YamlGlobName(name)
  {
    WorkflowPatternIff(name);
    WildMatch(WorkflowPattern, name)
  }

  /** Reference reading of the pattern: the name ends in `ml` and has a `.y` that ends
      at or before the place where that `ml` starts. This holds for `.yml` and `.yaml`
      but also for names such as `page.yhtml` or `x.y.html`. */
  predicate YamlGlobName(name: string)
  {
    |name| >= 4 && name[|name| - 2] == 'm' && name[|name| - 1] == 'l' &&
    exists i | 0 <= i <= |name| - 4 :: name[i] == '.' && name[i + 1] == 'y'
  }

  /** A leading `*` matches when the rest of the pattern matches some suffix. */
  lemma {:induction false} StarMatch(pat: string, name: string)
    requires pat != [] && pat[0] == '*'
    ensures WildMatch(pat, name) <==> exists k | 0 <= k <= |name| :: WildMatch(pat[1..], name[k..])
    decreases |name|
  {
    assert name[0..] == name;
    if name != [] {
      StarMatch(pat, name[1..]);
      forall k | 0 <= k <= |name| - 1
        ensures name[1..][k..] == name[k + 1..]
      {
      }
      if WildMatch(pat, name[1..]) {
        var k :| 0 <= k <= |name| - 1 && WildMatch(pat[1..], name[1..][k..]);
        assert WildMatch(pat[1..], name[k + 1..]);
      }
      if k :| 0 <= k <= |name| && WildMatch(pat[1..], name[k..]) {
        if k > 0 {
          assert WildMatch(pat[1..], name[1..][k - 1..]);
        }
      }
    }
  }

  lemma MatchMl(w: string)
    ensures WildMatch("ml", w) <==> w == "ml"
  {
    assert "ml"[1..] == "l" && "l"[1..] == [];
    assert WildMatch("ml", w) == (w != [] && w[0] == 'm' && WildMatch("l", w[1..]));
    if w != [] {
      assert WildMatch("l", w[1..]) == (w[1..] != [] && w[1] == 'l' && WildMatch([], w[2..]));
    }
  }

  lemma MatchStarMl(v: string)
    ensures WildMatch("*ml", v) <==> |v| >= 2 && v[|v| - 2..] == "ml"
  {
    assert "*ml"[1..] == "ml";
    StarMatch("*ml", v);
    if WildMatch("*ml", v) {
      var k :| 0 <= k <= |v| && WildMatch("ml", v[k..]);
      MatchMl(v[k..]);
      assert |v| - k == 2;
      assert v[|v| - 2..] == v[k..];
    }
    if |v| >= 2 && v[|v| - 2..] == "ml" {
      MatchMl(v[|v| - 2..]);
      assert WildMatch("ml", v[|v| - 2..]);
    }
  }

  lemma MatchDotYStarMl(u: string)
    ensures WildMatch(".y*ml", u) <==> |u| >= 2 && u[..2] == ".y" && WildMatch("*ml", u[2..])
  {
    assert ".y*ml"[1..] == "y*ml" && "y*ml"[1..] == "*ml";
    if |u| >= 2 {
      assert u[1..][1..] == u[2..];
    }
  }

  lemma MatchIsYamlGlobName(name: string)
    requires WildMatch(WorkflowPattern, name)
    ensures YamlGlobName(name)
  {
    assert WorkflowPattern[1..] == ".y*ml";
    StarMatch(WorkflowPattern, name);
    var k :| 0 <= k <= |name| && WildMatch(".y*ml", name[k..]);
    var u := name[k..];
    MatchDotYStarMl(u);
    MatchStarMl(u[2..]);
    assert u[..2][0] == name[k] && u[..2][1] == name[k + 1];
    var v := u[2..];
    assert v[|v| - 2..][0] == name[|name| - 2] && v[|v| - 2..][1] == name[|name| - 1];
  }

  lemma YamlGlobNameMatches(name: string)
    requires YamlGlobName(name)
    ensures WildMatch(WorkflowPattern, name)
  {
    assert WorkflowPattern[1..] == ".y*ml";
    StarMatch(WorkflowPattern, name);
    var i :| 0 <= i <= |name| - 4 && name[i] == '.' && name[i + 1] == 'y';
    var u := name[i..];
    assert u[..2] == ".y";
    var v := u[2..];
    assert v[|v| - 2..] == "ml";
    MatchStarMl(v);
    MatchDotYStarMl(u);
  }

  /** The glob pattern and the reference reading agree on every name. */
  lemma WorkflowPatternIff(name: string)
    ensures WildMatch(WorkflowPattern, name) <==> YamlGlobName(name)
  {
    if WildMatch(WorkflowPattern, name) {
      MatchIsYamlGlobName(name);
    }
    if YamlGlobName(name) {
      YamlGlobNameMatches(name);
    }
  }

  /** Names the scan picks up, `.yhtml` among them. */
  lemma WorkflowFileMatches()
    ensures IsWorkflowFile("codeql.yml") && IsWorkflowFile("ci.yaml") && IsWorkflowFile("page.yhtml")
  {
    assert "codeql.yml"[6] == '.' && "codeql.yml"[7] == 'y';
    assert "ci.yaml"[2] == '.' && "ci.yaml"[3] == 'y';
    assert "page.yhtml"[4] == '.' && "page.yhtml"[5] == 'y';
  }

  /** Names the scan skips. */
  lemma WorkflowFileSkips()
    ensures !IsWorkflowFile("README.md") && !IsWorkflowFile("ci.yml.bak")
  {
  }
}
