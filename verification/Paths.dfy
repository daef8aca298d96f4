/** Image paths in the descriptor: stored relative to the descriptor's directory, and made full again. */
module Paths {

  /** Runs of slashes become one slash. */
  function Collapse(s: string): (r: string)
    ensures |r| <= |s| && (s == "" <==> r == "") && (s != "" ==> r[0] == s[0] && r[|r| - 1] == s[|s| - 1])
    ensures NoDouble(r)
    decreases |s|
  {
    if s == "" then ""
    else if s[0] == '/' && |s| > 1 && s[1] == '/' then Collapse(s[1..])
    else [s[0]] + Collapse(s[1..])
  }

  predicate NoDouble(s: string) { forall i :: 0 <= i < |s| - 1 ==> !(s[i] == '/' && s[i + 1] == '/') }

  /** Without a slash at the end. */
  function Trim(c: string): string { if c != "" && c[|c| - 1] == '/' then c[..|c| - 1] else c }

  /** Runs of slashes become one slash, and the last slash goes. */
  function Norm(s: string): string {
    Trim(Collapse(s))
  }

  /** Not empty, no double slash, and no slash at the end. */
  predicate Normal(s: string) { s != "" && NoDouble(s) && s[|s| - 1] != '/' }

  lemma NormIsNormal(s: string)
    ensures Norm(s) == "" || Normal(Norm(s))
  {
    var c := Collapse(s);
    if |c| > 1 { assert !(c[|c| - 2] == '/' && c[|c| - 2 + 1] == '/'); }
  }

  lemma {:induction false} NormalCollapse(s: string)
    requires NoDouble(s)
    ensures Collapse(s) == s
    decreases |s|
  {
    if s != "" {
      assert |s| > 1 ==> !(s[0] == '/' && s[0 + 1] == '/');
      assert NoDouble(s[1..]) by {
        forall i | 0 <= i < |s[1..]| - 1 ensures !(s[1..][i] == '/' && s[1..][i + 1] == '/') {
          assert !(s[i + 1] == '/' && s[i + 1 + 1] == '/');
        }
      }
      NormalCollapse(s[1..]);
    }
  }

  lemma NormalNorm(s: string)
    requires Normal(s)
    ensures Norm(s) == s
  {
    NormalCollapse(s);
  }

  // ---------- the names in a path ----------

  function One(name: string): seq<string> { if name == "" then [] else [name] }

  /** The names between slashes; `name` is the part of the first that was read already. */
  function NamesFrom(name: string, s: string): seq<string>
    decreases |s|
  {
    if s == "" then One(name)
    else if s[0] == '/' then One(name) + NamesFrom("", s[1..])
    else NamesFrom(name + [s[0]], s[1..])
  }

  function Names(s: string): seq<string> { NamesFrom("", s) }

  lemma {:induction false} CollapseNames(name: string, s: string)
    ensures NamesFrom(name, Collapse(s)) == NamesFrom(name, s)
    decreases |s|
  {
    if s != "" {
      var c := Collapse(s[1..]);
      if s[0] == '/' && |s| > 1 && s[1] == '/' {
        CollapseNames(name, s[1..]);
        assert NamesFrom("", s[1..]) == One("") + NamesFrom("", s[1..][1..]);
        assert NamesFrom(name, s[1..]) == One(name) + NamesFrom("", s[1..][1..]);
      } else {
        assert ([s[0]] + c)[1..] == c;
        CollapseNames(if s[0] == '/' then "" else name + [s[0]], s[1..]);
      }
    }
  }

  lemma {:induction false} LastSlashNames(name: string, s: string)
    requires s != "" && s[|s| - 1] == '/'
    ensures NamesFrom(name, s[..|s| - 1]) == NamesFrom(name, s)
    decreases |s|
  {
    if |s| > 1 {
      assert s[..|s| - 1][1..] == s[1..][..|s[1..]| - 1];
      LastSlashNames(if s[0] == '/' then "" else name + [s[0]], s[1..]);
    } else {
      assert s[..0] == "" && s[1..] == "";
      assert NamesFrom(name, s) == One(name) + NamesFrom("", "");
    }
  }

  /** A path keeps its names and whether it starts at the root. With `NormIsNormal` that says what it becomes. */
  lemma NormKeepsNames(s: string)
    ensures Names(Norm(s)) == Names(s) && (Norm(s) != "" ==> Norm(s)[0] == s[0])
  {
    CollapseNames("", s);
    TrimKeepsNames(Collapse(s));
  }

  lemma TrimKeepsNames(c: string)
    ensures Names(Trim(c)) == Names(c) && (Trim(c) != "" ==> Trim(c)[0] == c[0])
  {
    if c != "" && c[|c| - 1] == '/' { LastSlashNames("", c); }
  }

  lemma {:induction false} CollapseRun(s: string, from: nat, to: nat)
    requires from <= to < |s| && forall i :: from <= i <= to ==> s[i] == '/'
    requires to + 1 < |s| ==> s[to + 1] != '/'
    ensures Collapse(s[from..]) == ['/'] + Collapse(s[to + 1..])
    decreases |s| - from
  {
    assert s[from..][1..] == s[from + 1..];
    if from < to { CollapseRun(s, from + 1, to); }
  }

  /** The last slash of the run that starts at `from`, or `from` itself. */
  method SkipSlashes(path: string, from: nat) returns (s: nat)
    requires from < |path|
    ensures from <= s < |path| && Collapse(path[from..]) == [path[from]] + Collapse(path[s + 1..])
  {
    s := from;
    if path[from] == '/' {
      while s + 1 < |path| && path[s + 1] == '/'
        invariant from <= s < |path| && forall i :: from <= i <= s ==> path[i] == '/'
      {
        s := s + 1;
      }
      CollapseRun(path, from, s);
    } else {
      assert path[from..][1..] == path[from + 1..];
    }
  }

  lemma Regroup(a: string, c: char, b: string)
    ensures a + ([c] + b) == a + [c] + b
  {
  }

  /** The loop of `normalize_path`. */
  method CollapseSlashes(path: string) returns (out: string)
    ensures out == Collapse(path)
  {
    var s := 0;
    out := "";
    assert path[0..] == path;
    while s < |path|
      invariant 0 <= s <= |path| && out + Collapse(path[s..]) == Collapse(path)
    {
      var c := path[s];
      s := SkipSlashes(path, s);
      s := s + 1;
      Regroup(out, c, Collapse(path[s..]));
      out := out + [c];
    }
    assert path[s..] == "" && out + "" == out;
  }

  /** `normalize_path`. */
  method NormalizePath(path: string) returns (out: string)
    requires path != ""
    ensures out == Norm(path)
  {
    out := CollapseSlashes(path);
    if out[|out| - 1] == '/' { out := out[..|out| - 1]; }
  }

  // ---------- counting slashes ----------

  function NumDir(s: string): nat {
    if s == "" then 0 else NumDir(s[..|s| - 1]) + if s[|s| - 1] == '/' then 1 else 0
  }

  method GetNumDir(dir: string) returns (n: nat)
    ensures n == NumDir(dir)
  {
    n := 0;
    var i := 0;
    while i < |dir|
      invariant 0 <= i <= |dir| && n == NumDir(dir[..i])
    {
      assert dir[..i + 1][..i] == dir[..i];
      if dir[i] == '/' { n := n + 1; }
      i := i + 1;
    }
    assert dir[..i] == dir;
  }

  lemma {:induction false} NumDirFront(s: string)
    requires s != ""
    ensures NumDir(s) == NumDir(s[1..]) + if s[0] == '/' then 1 else 0
    decreases |s|
  {
    if |s| == 1 {
      assert s[..0] == "" && s[1..] == "";
    } else {
      assert s[..|s| - 1][1..] == s[1..][..|s| - 2];
      NumDirFront(s[..|s| - 1]);
    }
  }

  // ---------- the relative path ----------

  /** The directory with a slash at the end. */
  function Base(dir: string): string { Norm(dir) + "/" }

  /** `k` is the last slash of the part the two paths have in common. */
  ghost predicate LastCommon(b: string, f: string, k: nat) {
    && k < |b| && k < |f| && b[..k + 1] == f[..k + 1] && b[k] == '/'
    && forall j :: k < j < |b| && j < |f| && b[..j + 1] == f[..j + 1] ==> b[j] != '/'
  }

  lemma PrefixAt(b: string, f: string, i: nat, j: nat)
    requires i < |b| && i < |f| && b[..i + 1] == f[..i + 1]
    ensures j <= i ==> b[j] == f[j]
  {
    assert forall k :: 0 <= k <= i ==> b[..i + 1][k] == b[k] && f[..i + 1][k] == f[k];
  }

  lemma NothingBehind(b: string, f: string, j: nat, k: nat)
    requires j <= |b| && j <= |f| && k < j && (forall i :: k < i < j ==> b[i] != '/')
    requires j < |b| && j < |f| ==> b[j] != f[j]
    ensures forall i :: k < i < |b| && i < |f| && b[..i + 1] == f[..i + 1] ==> b[i] != '/'
  {
    forall i | k < i < |b| && i < |f| && b[..i + 1] == f[..i + 1] ensures b[i] != '/' { PrefixAt(b, f, i, j); }
  }

  /** `n` steps up. */
  function Ups(n: nat): (r: string)
    ensures |r| == 3 * n
  {
    if n == 0 then "" else "../" + Ups(n - 1)
  }

  /** The path relative to the directory `b`: absolute if the two have only the root in common. */
  function Relative(b: string, f: string, k: nat): string
    requires k < |b| && k < |f|
  {
    if k == 0 then f else Ups(NumDir(b[k + 1..])) + f[k + 1..]
  }

  /** The loop over the common part: where it ends, and the last slash in either path before that. */
  method SkipCommon(b: string, f: string) returns (j: nat, bd: nat, id: nat)
    requires b != "" && f != "" && b[0] == f[0] == '/'
    ensures j <= |b| && j <= |f| && bd == id < j && LastCommon(b, f, bd) && (j < |b| && j < |f| ==> b[j] != f[j])
    ensures forall i :: bd < i < j ==> b[i] != '/'
  {
    j, bd, id := 0, 0, 0;
    while j < |b| && j < |f| && b[j] == f[j]
      invariant j <= |b| && j <= |f| && b[..j] == f[..j] && bd == id && (j == 0 ==> bd == 0)
      invariant j > 0 ==> bd < j && b[bd] == '/' && forall i :: bd < i < j ==> b[i] != '/'
    {
      assert b[..j + 1] == b[..j] + [b[j]] && f[..j + 1] == f[..j] + [f[j]];
      if b[j] == '/' { bd := j; }
      if f[j] == '/' { id := j; }
      j := j + 1;
    }
    assert b[..bd + 1] == b[..j][..bd + 1] && f[..bd + 1] == f[..j][..bd + 1];
    NothingBehind(b, f, j, bd);
  }

  /** `get_relative_path`, for absolute paths other than the root. */
  method GetRelativePath(dir: string, path: string) returns (out: string, ghost k: nat)
    requires path != "" && path[0] == '/' && Norm(path) != "" && dir != "" && dir[0] == '/' && Norm(dir) != ""
    ensures LastCommon(Base(dir), Norm(path), k) && out == Relative(Base(dir), Norm(path), k)
  {
    var fname := NormalizePath(path);
    var basedir := NormalizePath(dir);
    NormIsNormal(dir);
    if basedir[|basedir| - 1] != '/' { basedir := basedir + "/"; }
    var j, bd, id := SkipCommon(basedir, fname);
    k := bd;
    if id == 0 { return fname, k; }
    out := "";
    if j < |basedir| {
      var n := GetNumDir(basedir[bd + 1..]);
      out := RepeatUp(n);
    } else {
      assert basedir[|basedir| - 1] == '/';
      assert bd == |basedir| - 1;
      assert |basedir[bd + 1..]| == 0;
    }
    out := out + fname[id + 1..];
  }

  method RepeatUp(n: nat) returns (out: string)
    ensures out == Ups(n)
  {
    out := "";
    var i := 0;
    while i < n
      invariant 0 <= i <= n && out + Ups(n - i) == Ups(n)
    {
      out := out + "../";
      i := i + 1;
    }
  }

  // ---------- the full path ----------

  predicate UpAt(s: string, i: nat) { i + 3 <= |s| && s[i] == '.' && s[i + 1] == '.' && s[i + 2] == '/' }

  /** The first "../" at or after `from`; -1 if there is none. */
  function FindUp(s: string, from: nat): (r: int)
    requires from <= |s|
    ensures r == -1 || (from <= r && UpAt(s, r))
    ensures r == -1 ==> forall i :: from <= i ==> !UpAt(s, i)
    decreases |s| - from
  {
    if from + 3 > |s| then -1 else if UpAt(s, from) then from else FindUp(s, from + 1)
  }

  /** How often "../" is found one after the other, and where the last one ends. */
  function CountUps(s: string, from: nat): (r: (nat, nat))
    requires from <= |s|
    ensures from <= r.1 <= |s| && (r.0 == 0 <==> FindUp(s, from) == -1) && (r.0 == 0 ==> r.1 == from)
    ensures (r.0 > 0 ==> r.1 >= from + 3)
    decreases |s| - from
  {
    var i := FindUp(s, from);
    if i == -1 then (0, from) else var r := CountUps(s, i + 3); (r.0 + 1, r.1)
  }

  /** Searching backwards from `p`, where `seen` slashes were passed, for the one after `n`; 0 if there is none. */
  function SlashBack(b: string, p: nat, seen: nat, n: nat): (r: nat)
    requires p < |b|
    ensures r <= p
    decreases p
  {
    if p == 0 then 0 else if b[p] == '/' && seen == n then p
    else SlashBack(b, p - 1, if b[p] == '/' then seen + 1 else seen, n)
  }

  /** The full path of `r` from directory `b`. */
  function Full(b: string, r: string): string
    requires b != "" && r != ""
  {
    if r[0] == '/' then r
    else
      var ups := CountUps(r, 0);
      b[..SlashBack(b, |b| - 1, 0, ups.0) + 1] + r[ups.1..]
  }

  /** `get_full_path`. */
  method GetFullPath(dir: string, path: string) returns (out: string)
    requires path != "" && Norm(path) != "" && dir != "" && Norm(dir) != ""
    ensures out == Full(Base(dir), Norm(path))
  {
    var fname := NormalizePath(path);
    var basedir := NormalizePath(dir);
    NormIsNormal(dir);
    if basedir[|basedir| - 1] != '/' { basedir := basedir + "/"; }
    if fname[0] == '/' { return fname; }
    var n, imageBase := SkipUps(fname);
    var p := GoBack(basedir, n);
    out := basedir[..p + 1] + fname[imageBase..];
  }

  lemma NextUp(s: string, from: nat)
    requires from <= |s|
    ensures var i := FindUp(s, from);
      CountUps(s, from) == if i == -1 then (0, from) else (CountUps(s, i + 3).0 + 1, CountUps(s, i + 3).1)
  {
  }

  method SkipUps(fname: string) returns (n: nat, imageBase: nat)
    ensures n == CountUps(fname, 0).0 && imageBase == CountUps(fname, 0).1
  {
    n, imageBase := 0, 0;
    ghost var total := CountUps(fname, 0);
    var s := FindUp(fname, 0);
    while s != -1
      invariant imageBase <= |fname| && s == FindUp(fname, imageBase)
      invariant total.0 == n + CountUps(fname, imageBase).0 && total.1 == CountUps(fname, imageBase).1
      decreases |fname| - imageBase
    {
      NextUp(fname, imageBase);
      imageBase := s + 3;
      n := n + 1;
      s := FindUp(fname, imageBase);
    }
  }

  method GoBack(basedir: string, n: nat) returns (p: nat)
    requires basedir != ""
    ensures p == SlashBack(basedir, |basedir| - 1, 0, n)
  {
    p := |basedir| - 1;
    var i := 0;
    while p != 0
      invariant p < |basedir| && SlashBack(basedir, p, i, n) == SlashBack(basedir, |basedir| - 1, 0, n)
      decreases p
    {
      if basedir[p] == '/' {
        if i == n { break; }
        i := i + 1;
      }
      p := p - 1;
    }
  }

  // ---------- the round trip ----------

  /** The slashes behind position `k`, and then the one at `k`. */
  lemma {:induction false} BackToSlash(b: string, p: nat, k: nat, n: nat)
    requires k <= p < |b| && k > 0 && b[k] == '/'
    ensures SlashBack(b, p, NumDir(b[p + 1..]), NumDir(b[k + 1..]) + n) <= k
    ensures n == 0 ==> SlashBack(b, p, NumDir(b[p + 1..]), NumDir(b[k + 1..])) == k
    decreases p - k
  {
    if p > k {
      assert b[p..][1..] == b[p + 1..];
      NumDirFront(b[p..]);
      FewerBehind(b, k, p);
      BackToSlash(b, p - 1, k, n);
    }
  }

  lemma {:induction false} FewerBehind(b: string, k: nat, p: nat)
    requires k < p < |b|
    ensures NumDir(b[p..]) <= NumDir(b[k + 1..])
    decreases p - k
  {
    if k + 1 < p {
      FewerBehind(b, k + 1, p);
      assert b[k + 1..][1..] == b[k + 2..];
      NumDirFront(b[k + 1..]);
    }
  }

  lemma OneUp(s: string, t: string)
    requires |s| == |t| + 3 && t == s[3..] && UpAt(s, 0)
    ensures CountUps(s, 0).0 == 1 + CountUps(t, 0).0 && CountUps(s, 0).1 == 3 + CountUps(t, 0).1
  {
    assert FindUp(s, 0) == 0;
    NextUp(s, 0);
    CountShifted(s, t, 3, 0);
  }

  lemma UpsStep(n: nat, rest: string)
    requires n > 0
    ensures Ups(n) + rest == "../" + (Ups(n - 1) + rest) && (Ups(n) + rest)[3..] == Ups(n - 1) + rest
    ensures UpAt(Ups(n) + rest, 0)
  {
  }

  /** Steps up in front are counted first. */
  lemma {:induction false} UpsCounted(n: nat, rest: string)
    ensures CountUps(Ups(n) + rest, 0).0 == n + CountUps(rest, 0).0
    ensures CountUps(Ups(n) + rest, 0).1 == 3 * n + CountUps(rest, 0).1
  {
    if n == 0 {
      assert Ups(n) + rest == rest;
    } else {
      UpsStep(n, rest);
      OneUp(Ups(n) + rest, Ups(n - 1) + rest);
      UpsCounted(n - 1, rest);
    }
  }

  lemma CountStep(s: string, t: string, d: nat, from: nat, i: nat)
    requires d + from <= |s| && from <= |t| && i == FindUp(t, from) && FindUp(s, d + from) == d + i
    requires CountUps(s, d + i + 3).0 == CountUps(t, i + 3).0 && CountUps(s, d + i + 3).1 == d + CountUps(t, i + 3).1
    ensures CountUps(s, d + from).0 == CountUps(t, from).0 && CountUps(s, d + from).1 == d + CountUps(t, from).1
  {
  }

  /** Counting in a tail. */
  lemma {:induction false} CountShifted(s: string, t: string, d: nat, from: nat)
    requires d <= |s| && t == s[d..] && from <= |t|
    ensures CountUps(s, d + from).0 == CountUps(t, from).0 && CountUps(s, d + from).1 == d + CountUps(t, from).1
    decreases |t| - from
  {
    FindShifted(s, t, d, from);
    var i := FindUp(t, from);
    if i != -1 {
      CountShifted(s, t, d, i + 3);
      CountStep(s, t, d, from, i);
    }
  }

  lemma {:induction false} FindShifted(s: string, t: string, d: nat, from: nat)
    requires d <= |s| && t == s[d..] && from <= |t|
    ensures FindUp(s, d + from) == if FindUp(t, from) == -1 then -1 else d + FindUp(t, from)
    decreases |t| - from
  {
    assert UpAt(s, d + from) <==> UpAt(t, from);
    if from + 3 <= |t| && !UpAt(t, from) { FindShifted(s, t, d, from + 1); }
  }

  /** The relative path of a normal path is normal, so it is stored and read back as it is. */
  lemma RelativeIsNormal(b: string, f: string, k: nat)
    requires Normal(f) && k < |b| && k < |f| && f[k] == '/' && f[0] == '/'
    ensures Normal(Relative(b, f, k)) && (Relative(b, f, k)[0] == '/' <==> k == 0)
    ensures k > 0 ==> k + 1 < |f| && f[k + 1] != '/'
  {
    if k > 0 {
      assert k < |f| - 1 && !(f[k] == '/' && f[k + 1] == '/');
      var rest := f[k + 1..];
      assert NoDouble(rest) by {
        forall i | 0 <= i < |rest| - 1 ensures !(rest[i] == '/' && rest[i + 1] == '/') {
          assert !(f[k + 1 + i] == '/' && f[k + 1 + i + 1] == '/');
        }
      }
      UpsNormal(NumDir(b[k + 1..]), rest);
    }
  }

  lemma {:induction false} UpsNormal(n: nat, rest: string)
    requires Normal(rest) && rest[0] != '/'
    ensures Normal(Ups(n) + rest) && (Ups(n) + rest)[0] != '/'
  {
    if n == 0 {
      assert Ups(0) + rest == rest;
    } else {
      var t := Ups(n - 1) + rest;
      UpsNormal(n - 1, rest);
      assert Ups(n) + rest == "../" + t;
      forall i | 0 <= i < |"../" + t| - 1 ensures !(("../" + t)[i] == '/' && ("../" + t)[i + 1] == '/') {
        if i >= 3 { assert !(t[i - 3] == '/' && t[i - 3 + 1] == '/'); }
      }
    }
  }

  lemma TailOf(a: string, rest: string, m: nat)
    requires m <= |rest|
    ensures (a + rest)[|a| + m..] == rest[m..]
  {
  }

  lemma FullWith(b: string, r: string, n: nat, base: nat, at: nat)
    requires b != "" && r != "" && r[0] != '/' && CountUps(r, 0).0 == n && CountUps(r, 0).1 == base
    requires at == SlashBack(b, |b| - 1, 0, n)
    ensures base <= |r| && Full(b, r) == b[..at + 1] + r[base..]
  {
  }

  /** Making a relative path full: the steps up lead back to the common slash, or further if the rest has more. */
  lemma FullIs(b: string, k: nat, n: nat, rest: string, r: string) returns (at: nat, skipped: nat)
    requires 0 < k < |b| && b[k] == '/' && n == NumDir(b[k + 1..]) && r == Ups(n) + rest && r != "" && r[0] != '/'
    ensures at <= k && skipped <= |rest| && Full(b, r) == b[..at + 1] + rest[skipped..]
    ensures if FindUp(rest, 0) == -1 then at == k && skipped == 0 else skipped >= 3
  {
    var more := CountUps(rest, 0).0;
    skipped := CountUps(rest, 0).1;
    UpsCounted(n, rest);
    BackFromEnd(b, k, more);
    at := SlashBack(b, |b| - 1, 0, n + more);
    FullWith(b, r, n + more, 3 * n + skipped, at);
    TailOf(Ups(n), rest, skipped);
  }

  lemma BackFromEnd(b: string, k: nat, more: nat)
    requires 0 < k < |b| && b[k] == '/'
    ensures SlashBack(b, |b| - 1, 0, NumDir(b[k + 1..]) + more) <= k
    ensures more == 0 ==> SlashBack(b, |b| - 1, 0, NumDir(b[k + 1..]) + more) == k
  {
    assert b[|b| - 1 + 1..] == "";
    BackToSlash(b, |b| - 1, k, more);
  }

  /** Two paths joined behind slash `k`. */
  lemma Joined(b: string, f: string, k: nat, at: nat, skipped: nat)
    requires k < |b| && k < |f| && b[..k + 1] == f[..k + 1] && at <= k && skipped <= |f| - (k + 1)
    ensures at == k && skipped == 0 ==> b[..at + 1] + f[k + 1..][skipped..] == f
    ensures skipped > 0 ==> b[..at + 1] + f[k + 1..][skipped..] != f
  {
    if at == k && skipped == 0 {
      assert f[k + 1..][0..] == f[k + 1..] && f[..k + 1] + f[k + 1..] == f;
    } else if skipped > 0 {
      assert |b[..at + 1] + f[k + 1..][skipped..]| == at + 1 + (|f| - (k + 1) - skipped);
    }
  }

  /** A path stored relative to a directory and made full again is the normal path exactly if it was stored
      absolute, or nothing that looks like a step up is left behind the common part. */
  lemma FullOfRelative(b: string, f: string, k: nat)
    requires Normal(f) && f[0] == '/' && LastCommon(b, f, k)
    ensures Full(b, Relative(b, f, k)) == f <==> k == 0 || FindUp(f[k + 1..], 0) == -1
  {
    assert f[k] == b[..k + 1][k];
    RelativeIsNormal(b, f, k);
    if k > 0 {
      var at, skipped := FullIs(b, k, NumDir(b[k + 1..]), f[k + 1..], Relative(b, f, k));
      Joined(b, f, k, at, skipped);
    }
  }

  /** The round trip as the descriptor makes it. */
  method StoreAndLoad(dir: string, path: string) returns (stored: string, loaded: string, ghost k: nat)
    requires path != "" && path[0] == '/' && Norm(path) != "" && dir != "" && dir[0] == '/' && Norm(dir) != ""
    ensures LastCommon(Base(dir), Norm(path), k)
    ensures loaded == Norm(path) <==> k == 0 || FindUp(Norm(path)[k + 1..], 0) == -1
  {
    stored, k := GetRelativePath(dir, path);
    NormIsNormal(path);
    var b, f := Base(dir), Norm(path);
    assert f[k] == b[..k + 1][k];
    RelativeIsNormal(b, f, k);
    NormalNorm(stored);
    loaded := GetFullPath(dir, stored);
    FullOfRelative(b, f, k);
  }

  lemma DotsNormal()
    ensures Norm("/a/b../c") == "/a/b../c" && Base("/a") == "/a/"
  {
    assert Normal("/a") && Normal("/a/b../c");
    NormalNorm("/a");
    NormalNorm("/a/b../c");
  }

  lemma DotsCommon(k: nat)
    requires LastCommon("/a/", "/a/b../c", k)
    ensures k == 2 && FindUp("/a/b../c"[k + 1..], 0) != -1
  {
    var b, f := "/a/", "/a/b../c";
    assert b[..2 + 1] == f[..2 + 1] && b[2] == '/';
    assert "/a/b../c"[3..] == "b../c";
    assert UpAt("b../c", 1);
  }

  /** A directory whose name ends with two dots: the path comes back as another one. */
  method NameEndsWithDots() returns (stored: string, loaded: string)
    ensures loaded != "/a/b../c"
  {
    ghost var k;
    DotsNormal();
    stored, loaded, k := StoreAndLoad("/a", "/a/b../c");
    DotsCommon(k);
  }
}
