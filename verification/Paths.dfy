/** Splitting torrent paths on "/" and writing directories with a trailing slash. */
module Paths {

  predicate NoSlash(c: string) { '/' !in c }

  /** boost::split(strs, path, is_any_of("/")) */
  function Split(p: string): (cs: seq<string>)
    ensures cs != []
    ensures forall i | 0 <= i < |cs| :: NoSlash(cs[i])
  {
    if p == "" then [""]
    else if p[0] == '/' then [""] + Split(p[1..])
    else
      var cs := Split(p[1..]);
      [[p[0]] + cs[0]] + cs[1..]
  }

  /** The index key of the directory with these components: "/" + c + "/" + ... + "/". */
  function DirPath(cs: seq<string>): (d: string)
    ensures |d| >= 1 && d[0] == '/' == d[|d| - 1]
  {
    if cs == [] then "/" else DirPath(cs[..|cs| - 1]) + cs[|cs| - 1] + "/"
  }

  function Joined(cs: seq<string>): string {
    if cs == [] then "" else cs[0] + "/" + Joined(cs[1..])
  }

  lemma {:induction false} JoinedSnoc(cs: seq<string>, c: string)
    ensures Joined(cs + [c]) == Joined(cs) + c + "/"
  {
    if cs == [] {
      assert (cs + [c])[1..] == [];
    } else {
      assert (cs + [c])[1..] == cs[1..] + [c];
      JoinedSnoc(cs[1..], c);
    }
  }

  lemma {:induction false} DirPathJoined(cs: seq<string>)
    ensures DirPath(cs) == "/" + Joined(cs)
  {
    if cs == [] {
    } else {
      var k := |cs| - 1;
      assert cs == cs[..k] + [cs[k]];
      DirPathJoined(cs[..k]);
      JoinedSnoc(cs[..k], cs[k]);
    }
  }

  lemma {:induction false} JoinedSplit(p: string)
    ensures Joined(Split(p)) == p + "/"
  {
    if p == "" {
      assert Split(p)[1..] == [];
    } else {
      JoinedSplit(p[1..]);
      assert p == [p[0]] + p[1..];
      if p[0] == '/' {
        assert Split(p)[1..] == Split(p[1..]);
      } else {
        var cs := Split(p[1..]);
        assert Split(p)[1..] == cs[1..];
        assert ([p[0]] + cs[0]) + "/" + Joined(cs[1..]) == [p[0]] + (cs[0] + "/" + Joined(cs[1..]));
      }
    }
  }

  /** Splitting and concatenating rebuilds the path. */
  lemma SplitRebuilds(p: string)
    ensures DirPath(Split(p)) == "/" + p + "/"
  {
    DirPathJoined(Split(p));
    JoinedSplit(p);
  }

  lemma SlashInside(a: string, b: string, c: string, d: string)
    requires |a| < |b| && b[|b| - 1] == '/' && a + c + "/" == b + d + "/"
    ensures '/' in c
  {
    var x := a + c + "/";
    assert x == b + d + "/";
    assert x[|b| - 1] == '/' && x[|b| - 1] == c[|b| - 1 - |a|];
  }

  lemma LastComponent(a: string, b: string, c: string, d: string)
    requires a != "" && b != "" && a[|a| - 1] == '/' == b[|b| - 1]
    requires NoSlash(c) && NoSlash(d) && a + c + "/" == b + d + "/"
    ensures a == b && c == d
  {
    if |a| < |b| {
      SlashInside(a, b, c, d);
    }
    if |b| < |a| {
      SlashInside(b, a, d, c);
    }
    var x := a + c + "/";
    assert a == x[..|a|] && b == x[..|b|];
    assert c == x[|a|..|x| - 1] && d == x[|b|..|x| - 1];
  }

  /** The trailing-slash encoding of component lists is injective. */
  lemma {:induction false} DirPathInjective(cs: seq<string>, ds: seq<string>)
    requires forall i | 0 <= i < |cs| :: NoSlash(cs[i])
    requires forall i | 0 <= i < |ds| :: NoSlash(ds[i])
    requires DirPath(cs) == DirPath(ds)
    ensures cs == ds
  {
    if cs != [] && ds != [] {
      var j, k := |cs| - 1, |ds| - 1;
      LastComponent(DirPath(cs[..j]), DirPath(ds[..k]), cs[j], ds[k]);
      DirPathInjective(cs[..j], ds[..k]);
      assert cs == cs[..j] + [cs[j]] && ds == ds[..k] + [ds[k]];
    }
  }
}
