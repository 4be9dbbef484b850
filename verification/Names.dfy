/** Names joined by a slash, and when the parts can be told from the whole. */
module Names {

  predicate SlashFree(s: string) {
    '/' !in s
  }

  function Joined(a: string, b: string): string {
    a + "/" + b
  }

  /** No name, with its slash, starts another with its slash: "a" and "a/b" nest, "a/b" and "a/c" do not. */
  predicate Unnested(names: set<string>) {
    forall i, j :: i in names && j in names && i != j ==> !(i + "/" <= j + "/")
  }

  lemma SameLength(i: string, j: string)
    requires i + "/" <= j + "/" && |i| == |j|
    ensures i == j
  {
    assert i == (i + "/")[..|i|] && j == (j + "/")[..|j|];
  }

  lemma ShorterNests(i: string, n: string, j: string, m: string)
    requires Joined(i, n) == Joined(j, m) && |i| <= |j|
    ensures i + "/" <= j + "/"
  {
    var s := Joined(i, n);
    assert s[..|i| + 1] == i + "/" && s[..|j| + 1] == j + "/";
  }

  lemma SplitUnnested(names: set<string>, i: string, n: string, j: string, m: string)
    requires Unnested(names) && i in names && j in names && Joined(i, n) == Joined(j, m)
    ensures i == j && n == m
  {
    var s := Joined(i, n);
    assert s[|i| + 1..] == n && s[|j| + 1..] == m;
    if |i| <= |j| {
      ShorterNests(i, n, j, m);
    } else {
      ShorterNests(j, m, i, n);
    }
  }

  lemma SplitLastSlash(a: string, b: string, c: string, d: string)
    requires Joined(a, b) == Joined(c, d) && SlashFree(b) && SlashFree(d)
    ensures a == c && b == d
  {
    var s := Joined(a, b);
    assert s[|a|] == '/' && s[|c|] == '/';
    assert forall i :: |a| < i < |s| ==> s[i] == b[i - |a| - 1];
    assert forall i :: |c| < i < |s| ==> s[i] == d[i - |c| - 1];
    assert |a| == |c|;
    assert a == s[..|a|] && c == s[..|c|];
    assert b == s[|a| + 1..] && d == s[|c| + 1..];
  }

  /** Under nested names there are equal joins for every member of the longer one. */
  lemma NestedJoins(i: string, j: string) returns (rest: string)
    requires i != j && i + "/" <= j + "/"
    ensures rest != [] && rest[|rest| - 1] == '/'
    ensures forall n :: Joined(i, rest + n) == Joined(j, n)
  {
    var k := j + "/";
    rest := k[|i| + 1..];
    assert k == i + "/" + rest;
    if |i| == |j| {
      SameLength(i, j);
    }
    forall n ensures Joined(i, rest + n) == Joined(j, n) {
      assert i + "/" + (rest + n) == k + n;
    }
  }

  lemma NestedPair(names: set<string>) returns (i: string, j: string)
    requires !Unnested(names)
    ensures i in names && j in names && i != j && i + "/" <= j + "/"
  {
    i, j :| i in names && j in names && i != j && i + "/" <= j + "/";
  }

  ghost predicate JoinsApart(names: set<string>) {
    forall i, n, j, m :: i in names && j in names && Joined(i, n) == Joined(j, m) ==> i == j && n == m
  }

  /** Members of any name can be told apart by their joins exactly when the names do not nest. */
  lemma UnnestedExactly(names: set<string>)
    ensures Unnested(names) <==> JoinsApart(names)
  {
    if Unnested(names) {
      forall i, n, j, m | i in names && j in names && Joined(i, n) == Joined(j, m) ensures i == j && n == m {
        SplitUnnested(names, i, n, j, m);
      }
    } else {
      var i, j := NestedPair(names);
      var rest := NestedJoins(i, j);
      assert Joined(i, rest + "") == Joined(j, "");
    }
  }

  /** No other name, with its slash, starts the join. */
  predicate Unshared(names: set<string>, i: string, n: string) {
    forall j :: j in names && j != i ==> !(j + "/" <= Joined(i, n))
  }

  /** One join can be told from all others exactly when none of the other names starts it. */
  lemma UnsharedExactly(names: set<string>, i: string, n: string)
    ensures Unshared(names, i, n) <==> forall j, m :: j in names && Joined(i, n) == Joined(j, m) ==> i == j && n == m
  {
    var s := Joined(i, n);
    if Unshared(names, i, n) {
      forall j, m | j in names && s == Joined(j, m) ensures i == j && n == m {
        JoinParts(i, n);
        JoinParts(j, m);
      }
    } else {
      var j :| j in names && j != i && j + "/" <= s;
      assert s == Joined(j, s[|j| + 1..]);
    }
  }

  lemma JoinParts(i: string, n: string)
    ensures i + "/" <= Joined(i, n) && Joined(i, n)[|i| + 1..] == n
  {
  }

  /** Under names that do not nest no join is shared. */
  lemma UnnestedUnshared(names: set<string>, i: string, n: string)
    requires Unnested(names) && i in names
    ensures Unshared(names, i, n)
  {
    forall j, m | j in names && Joined(i, n) == Joined(j, m) ensures i == j && n == m {
      SplitUnnested(names, i, n, j, m);
    }
    UnsharedExactly(names, i, n);
  }
}
