/**
 Search paths: the canonical form of a path list, and the vectors of
 zero-terminated entries it is split into.
 */
module SearchPaths {

  const PATHSEP := ':'
  const DIRSEP := '/'
  const EOS := '\0'

  // ---------- path lists ----------

  /** The components between separators; there is always at least one. */
  function Split(p: string, d: char): (r: seq<string>)
    ensures |r| >= 1
  {
    if p == [] then [[]]
    else
      var r := Split(p[1..], d);
      if p[0] == d then [[]] + r else [[p[0]] + r[0]] + r[1..]
  }

  function NonEmpty(cs: seq<string>): seq<string> {
    if cs == [] then []
    else (if cs[0] != [] then [cs[0]] else []) + NonEmpty(cs[1..])
  }

  /** One directory name: runs of slashes become one, slashes at the end go. */
  function Squeeze(c: string): string {
    if c == [] then []
    else if c[0] == DIRSEP && (|c| == 1 || c[1] == DIRSEP) then Squeeze(c[1..])
    else [c[0]] + Squeeze(c[1..])
  }

  function SqueezeAll(cs: seq<string>): seq<string> {
    if cs == [] then [] else [Squeeze(cs[0])] + SqueezeAll(cs[1..])
  }

  /** The directories a path list names, in canonical spelling; the root directory has
      none. */
  function Directories(p: string): seq<string> {
    NonEmpty(SqueezeAll(Split(p, PATHSEP)))
  }

  // ---------- the canonical form ----------

  /** What the rest p of a path contributes; `started` once something was emitted. */
  function CanonicalRest(p: string, started: bool): string {
    if p == [] then []
    else if p[0] == PATHSEP then
      if !started || |p| == 1 || p[1] == PATHSEP then CanonicalRest(p[1..], started)
      else [PATHSEP] + CanonicalRest(p[1..], true)
    else if p[0] != DIRSEP then [p[0]] + CanonicalRest(p[1..], true)
    else if |p| > 1 && p[1] != PATHSEP && p[1] != DIRSEP then [DIRSEP] + CanonicalRest(p[1..], true)
    else CanonicalRest(p[1..], started)
  }

  function Canonical(p: string): string { CanonicalRest(p, false) }

  /** What the first character of a non-empty rest contributes. */
  function Contributed(rest: string, started: bool): string
    requires rest != []
  {
    var last := |rest| == 1;
    if rest[0] == PATHSEP then (if !started || last || rest[1] == PATHSEP then [] else [PATHSEP])
    else if rest[0] != DIRSEP then [rest[0]]
    else if last || rest[1] == PATHSEP || rest[1] == DIRSEP then [] else [DIRSEP]
  }

  /** The output so far and what the rest contributes make the canonical form. */
  ghost predicate Emitted(out: string, path: string, src: nat) {
    src <= |path| && out + CanonicalRest(path[src..], out != []) == Canonical(path)
  }

  lemma EmittedNone(out: string, path: string)
    requires out == []
    ensures Emitted(out, path, 0)
  {
    assert path[0..] == path;
  }

  lemma EmittedAll(out: string, path: string)
    requires Emitted(out, path, |path|)
    ensures out == Canonical(path)
  {
    assert path[|path|..] == [];
  }

  lemma EmitStep(out: string, path: string, src: nat)
    requires src < |path| && Emitted(out, path, src)
    ensures Emitted(out + Contributed(path[src..], out != []), path, src + 1)
  {
    var rest := path[src..];
    var c := Contributed(rest, out != []);
    assert rest[1..] == path[src + 1..];
    assert CanonicalRest(rest, out != []) == c + CanonicalRest(rest[1..], out + c != []);
  }

  /** canonicalize_path */
  method CanonicalizePath(path: string) returns (canonical: string)
    requires path != []
    ensures canonical == Canonical(path)
  {
    var buffer := new char[|path| + 1](_ => EOS);
    var dest := 0;
    EmittedNone(buffer[..0], path);
    for src := 0 to |path|
      modifies buffer
      invariant 0 <= dest <= src
      invariant Emitted(buffer[..dest], path, src)
    {
      EmitStep(buffer[..dest], path, src);
      dest := CopyChar(buffer, dest, path[src..]);
    }
    EmittedAll(buffer[..dest], path);
    canonical := buffer[..dest];
  }

  /** One turn of the loop of canonicalize_path, at the start of rest. */
  method CopyChar(buffer: array<char>, dest: nat, rest: string) returns (next: nat)
    requires dest < buffer.Length && rest != []
    modifies buffer
    ensures dest <= next <= dest + 1
    ensures buffer[..next] == old(buffer[..dest]) + Contributed(rest, dest > 0)
  {
    ghost var out := buffer[..dest];
    if rest[0] == PATHSEP {
      if dest == 0 || |rest| == 1 || rest[1] == PATHSEP {
        return dest;
      }
    }
    if rest[0] != DIRSEP {
      buffer[dest] := rest[0];
      assert buffer[..dest + 1] == out + [rest[0]];
      return dest + 1;
    } else if |rest| > 1 && rest[1] != PATHSEP && rest[1] != DIRSEP {
      buffer[dest] := DIRSEP;
      assert buffer[..dest + 1] == out + [DIRSEP];
      return dest + 1;
    }
    return dest;
  }

  /** A slash is always followed by an ordinary character. */
  predicate SlashesInside(q: string) {
    forall i :: 0 <= i < |q| && q[i] == DIRSEP ==> i + 1 < |q| && q[i + 1] != DIRSEP && q[i + 1] != PATHSEP
  }

  lemma {:induction false} CanonicalSlashes(p: string, started: bool)
    ensures SlashesInside(CanonicalRest(p, started))
    decreases |p|
  {
    if p != [] {
      CanonicalSlashes(p[1..], started);
      CanonicalSlashes(p[1..], true);
    }
  }

  // ---------- the canonical form by components ----------

  /** The components with separators between them. */
  function Listed(cs: seq<string>, d: char): string
    requires cs != []
  {
    if |cs| == 1 then cs[0] else cs[0] + [d] + Listed(cs[1..], d)
  }

  /** Splitting a path only removes the separators. */
  lemma {:induction false} SplitListed(p: string, d: char)
    ensures Listed(Split(p, d), d) == p && AllFree(Split(p, d), d)
    decreases |p|
  {
    if p != [] {
      var rest, cs := Split(p[1..], d), Split(p, d);
      SplitListed(p[1..], d);
      if p[0] == d {
        assert cs[1..] == rest;
      } else {
        assert cs[0] == [p[0]] + rest[0] && cs[1..] == rest[1..];
      }
      assert Listed(cs, d) == [p[0]] + Listed(rest, d);
    }
  }

  /** A slash that is doubled or at the end can go, and nothing else does. */
  lemma {:induction false} SqueezeDoubled(a: string, b: string)
    ensures Squeeze(a + [DIRSEP, DIRSEP] + b) == Squeeze(a + [DIRSEP] + b)
    ensures Squeeze(a + [DIRSEP]) == Squeeze(a)
    decreases |a|
  {
    var doubled, single, ended := a + [DIRSEP, DIRSEP] + b, a + [DIRSEP] + b, a + [DIRSEP];
    if a == [] {
      assert doubled[1..] == single;
      assert ended[1..] == [];
    } else {
      SqueezeDoubled(a[1..], b);
      assert doubled[1..] == a[1..] + [DIRSEP, DIRSEP] + b;
      assert single[1..] == a[1..] + [DIRSEP] + b;
      assert ended[1..] == a[1..] + [DIRSEP];
    }
  }

  lemma {:induction false} SqueezeFixed(c: string)
    ensures |Squeeze(c)| <= |c|
    ensures Squeeze(c) == c <==> forall i :: 0 <= i < |c| && c[i] == DIRSEP ==> i + 1 < |c| && c[i + 1] != DIRSEP
    decreases |c|
  {
    if c != [] {
      var rest := c[1..];
      SqueezeFixed(rest);
      assert c == [c[0]] + rest;
      assert forall i :: 0 < i < |c| ==> c[i] == rest[i - 1];
    }
  }

  /** Components behind the first one kept: each non-empty one brings its separator. */
  function Tail(cs: seq<string>): string {
    if cs == [] then []
    else (if cs[0] != [] then [PATHSEP] + Squeeze(cs[0]) else []) + Tail(cs[1..])
  }

  /** Components up to and including the first that is not made of slashes are not
      separated from anything. */
  function Lead(cs: seq<string>): string {
    if cs == [] then []
    else if Squeeze(cs[0]) == [] then Lead(cs[1..])
    else Squeeze(cs[0]) + Tail(cs[1..])
  }

  lemma {:induction false} StartedByComponents(p: string)
    ensures var cs := Split(p, PATHSEP);
      CanonicalRest(p, true) == Squeeze(cs[0]) + Tail(cs[1..])
    decreases |p|
  {
    if p != [] {
      var rest := Split(p[1..], PATHSEP);
      StartedByComponents(p[1..]);
      SplitHead(p[1..], PATHSEP);
      var cs := Split(p, PATHSEP);
      if p[0] == PATHSEP {
        assert cs[0] == [] && cs[1..] == rest;
      } else {
        assert cs[0] == [p[0]] + rest[0] && cs[0][1..] == rest[0] && cs[1..] == rest[1..];
      }
    }
  }

  /** The first component starts as the string does, unless that is a separator. */
  lemma SplitHead(p: string, d: char)
    ensures p == [] || p[0] == d ==> Split(p, d)[0] == []
    ensures p != [] && p[0] != d ==> Split(p, d)[0] != [] && Split(p, d)[0][0] == p[0]
  {
  }

  /** The canonical form, from the components of the path. */
  lemma {:induction false} CanonicalByComponents(p: string)
    ensures Canonical(p) == Lead(Split(p, PATHSEP))
    decreases |p|
  {
    if p != [] {
      SplitHead(p[1..], PATHSEP);
      if p[0] == PATHSEP {
        CanonicalByComponents(p[1..]);
        assert Split(p, PATHSEP)[1..] == Split(p[1..], PATHSEP);
      } else if p[0] == DIRSEP && (|p| == 1 || p[1] == PATHSEP || p[1] == DIRSEP) {
        CanonicalByComponents(p[1..]);
        SkippedSlash(p);
      } else {
        StartedByComponents(p[1..]);
        var rest, cs := Split(p[1..], PATHSEP), Split(p, PATHSEP);
        assert cs[0] == [p[0]] + rest[0] && cs[0][1..] == rest[0] && cs[1..] == rest[1..];
      }
    }
  }

  /** A slash before another slash, a separator or the end leaves no trace. */
  lemma SkippedSlash(p: string)
    requires p != [] && p[0] == DIRSEP && (|p| == 1 || p[1] == PATHSEP || p[1] == DIRSEP)
    ensures Lead(Split(p, PATHSEP)) == Lead(Split(p[1..], PATHSEP))
  {
    var rest, cs := Split(p[1..], PATHSEP), Split(p, PATHSEP);
    SplitHead(p[1..], PATHSEP);
    assert cs[0] == [p[0]] + rest[0] && cs[0][1..] == rest[0] && cs[1..] == rest[1..];
    assert Squeeze(cs[0]) == Squeeze(rest[0]);
  }

  // ---------- components of the canonical form ----------

  predicate Free(c: string, d: char) { forall i :: 0 <= i < |c| ==> c[i] != d }

  lemma {:induction false} SplitFree(a: string, d: char)
    requires Free(a, d)
    ensures Split(a, d) == [a]
  {
    if a != [] {
      SplitFree(a[1..], d);
      assert [a[0]] + a[1..] == a;
    }
  }

  lemma {:induction false} SplitAt(a: string, d: char, b: string)
    requires Free(a, d)
    ensures Split(a + [d] + b, d) == [a] + Split(b, d)
    decreases |a|
  {
    var p := a + [d] + b;
    if a == [] {
      assert p[1..] == b;
    } else {
      assert p[1..] == a[1..] + [d] + b;
      SplitAt(a[1..], d, b);
      assert [a[0]] + a[1..] == a;
    }
  }

  lemma {:induction false} SqueezeFree(c: string)
    requires Free(c, PATHSEP)
    ensures Free(Squeeze(c), PATHSEP)
  {
    if c != [] {
      SqueezeFree(c[1..]);
    }
  }

  lemma {:induction false} SqueezeTwice(c: string)
    ensures Squeeze(Squeeze(c)) == Squeeze(c)
    ensures c != [] && c[0] != DIRSEP ==> Squeeze(c) != [] && Squeeze(c)[0] == c[0]
    decreases |c|
  {
    if c != [] {
      SqueezeTwice(c[1..]);
      if !(c[0] == DIRSEP && (|c| == 1 || c[1] == DIRSEP)) {
        assert Squeeze(c)[1..] == Squeeze(c[1..]);
      }
    }
  }

  ghost predicate AllFree(cs: seq<string>, d: char) {
    forall i :: 0 <= i < |cs| ==> Free(cs[i], d)
  }

  lemma {:induction false} SplitAllFree(p: string, d: char)
    ensures AllFree(Split(p, d), d)
  {
    if p != [] {
      SplitAllFree(p[1..], d);
    }
  }

  /** What the components behind the first become. */
  function TailParts(cs: seq<string>): seq<string> { SqueezeAll(NonEmpty(cs)) }

  lemma {:induction false} SplitTail(s: string, cs: seq<string>)
    requires Free(s, PATHSEP) && AllFree(cs, PATHSEP)
    ensures Split(s + Tail(cs), PATHSEP) == [s] + TailParts(cs)
    decreases |cs|
  {
    if cs == [] {
      assert s + Tail(cs) == s;
      SplitFree(s, PATHSEP);
    } else if cs[0] == [] {
      assert NonEmpty(cs) == NonEmpty(cs[1..]);
      assert Tail(cs) == Tail(cs[1..]);
      SplitTail(s, cs[1..]);
    } else {
      var c := Squeeze(cs[0]);
      SqueezeFree(cs[0]);
      assert s + Tail(cs) == s + [PATHSEP] + (c + Tail(cs[1..]));
      SplitAt(s, PATHSEP, c + Tail(cs[1..]));
      SplitTail(c, cs[1..]);
      assert NonEmpty(cs)[1..] == NonEmpty(cs[1..]);
      assert TailParts(cs) == [c] + TailParts(cs[1..]);
    }
  }

  lemma {:induction false} PartsOfNonEmpty(cs: seq<string>)
    ensures NonEmpty(SqueezeAll(NonEmpty(cs))) == NonEmpty(SqueezeAll(cs))
    ensures NonEmpty(TailParts(cs)) == NonEmpty(SqueezeAll(cs))
    decreases |cs|
  {
    if cs != [] {
      PartsOfNonEmpty(cs[1..]);
      if cs[0] == [] {
        assert NonEmpty(cs) == NonEmpty(cs[1..]);
        assert SqueezeAll(cs)[1..] == SqueezeAll(cs[1..]);
      } else {
        var n := NonEmpty(cs);
        assert n[0] == cs[0] && n[1..] == NonEmpty(cs[1..]);
        assert SqueezeAll(n)[1..] == SqueezeAll(NonEmpty(cs[1..]));
        assert SqueezeAll(cs)[1..] == SqueezeAll(cs[1..]);
      }
    }
  }

  lemma {:induction false} LeadDirectories(cs: seq<string>)
    requires AllFree(cs, PATHSEP)
    ensures NonEmpty(Split(Lead(cs), PATHSEP)) == NonEmpty(SqueezeAll(cs))
    decreases |cs|
  {
    if cs != [] {
      assert SqueezeAll(cs)[1..] == SqueezeAll(cs[1..]);
      if Squeeze(cs[0]) == [] {
        LeadDirectories(cs[1..]);
      } else {
        SqueezeFree(cs[0]);
        SplitTail(Squeeze(cs[0]), cs[1..]);
        PartsOfNonEmpty(cs[1..]);
        var r := [Squeeze(cs[0])] + TailParts(cs[1..]);
        assert r[1..] == TailParts(cs[1..]);
      }
    }
  }

  /** The canonical form names the same directories in the same order. */
  lemma CanonicalDirectories(p: string)
    ensures NonEmpty(Split(Canonical(p), PATHSEP)) == Directories(p)
  {
    CanonicalByComponents(p);
    SplitAllFree(p, PATHSEP);
    LeadDirectories(Split(p, PATHSEP));
  }

  // ---------- directories lost ----------

  predicate AllSlashes(c: string) { forall i :: 0 <= i < |c| ==> c[i] == DIRSEP }

  /** A component made of slashes only: the root directory, in any spelling. */
  predicate OnlySlashes(c: string) { c != [] && AllSlashes(c) }

  predicate NoneOnlySlashes(cs: seq<string>) {
    forall i :: 0 <= i < |cs| ==> !OnlySlashes(cs[i])
  }

  lemma OnlySlashesHead(cs: seq<string>)
    requires cs != []
    ensures NoneOnlySlashes(cs) <==> !OnlySlashes(cs[0]) && NoneOnlySlashes(cs[1..])
  {
    assert forall i :: 0 < i < |cs| ==> cs[i] == cs[1..][i - 1];
  }

  /** Exactly these leave nothing. */
  lemma {:induction false} SqueezedToNothing(c: string)
    ensures Squeeze(c) == [] <==> AllSlashes(c)
  {
    if c != [] {
      SqueezedToNothing(c[1..]);
      assert AllSlashes(c) ==> c[0] == DIRSEP && (|c| > 1 ==> c[1] == DIRSEP);
      assert AllSlashes(c) <==> c[0] == DIRSEP && AllSlashes(c[1..]) by {
        assert forall i :: 0 < i < |c| ==> c[i] == c[1..][i - 1];
      }
    }
  }

  lemma {:induction false} SqueezedAway(cs: seq<string>)
    ensures |NonEmpty(SqueezeAll(cs))| <= |NonEmpty(cs)|
    ensures |NonEmpty(SqueezeAll(cs))| == |NonEmpty(cs)| <==> NoneOnlySlashes(cs)
    decreases |cs|
  {
    if cs != [] {
      SqueezedToNothing(cs[0]);
      SqueezedAway(cs[1..]);
      assert SqueezeAll(cs)[1..] == SqueezeAll(cs[1..]);
      OnlySlashesHead(cs);
    }
  }

  /** The canonical form names as many directories as the path exactly when the root
      directory is not among them: components made of slashes are lost. */
  lemma RootsLost(p: string)
    ensures |NonEmpty(Split(Canonical(p), PATHSEP))| == |NonEmpty(Split(p, PATHSEP))|
            <==> NoneOnlySlashes(Split(p, PATHSEP))
  {
    CanonicalDirectories(p);
    SqueezedAway(Split(p, PATHSEP));
  }

  /** Nothing is left of the root directory; callers go on with the empty text. */
  lemma RootAlone()
    ensures Canonical("/") == "" && Split("/", PATHSEP) == ["/"] && OnlySlashes("/")
  {
    SplitFree("/", PATHSEP);
  }

  /** The form is empty exactly when no component has anything but slashes. */
  lemma {:induction false} LeadEmpty(cs: seq<string>)
    ensures Lead(cs) == [] <==> forall i :: 0 <= i < |cs| ==> AllSlashes(cs[i])
    decreases |cs|
  {
    if cs != [] {
      SqueezedToNothing(cs[0]);
      LeadEmpty(cs[1..]);
      assert forall i :: 0 < i < |cs| ==> cs[i] == cs[1..][i - 1];
    }
  }

  lemma CanonicalEmpty(p: string)
    ensures Canonical(p) == []
            <==> forall i :: 0 <= i < |Split(p, PATHSEP)| ==> AllSlashes(Split(p, PATHSEP)[i])
  {
    CanonicalByComponents(p);
    LeadEmpty(Split(p, PATHSEP));
  }

  // ---------- when the canonical form is final ----------

  /** No component is made of slashes only, once there was one that is not. */
  predicate NoStraySlashes(cs: seq<string>) {
    forall i, j :: 0 <= i < j < |cs| && !AllSlashes(cs[i]) ==> !OnlySlashes(cs[j])
  }

  lemma StrayTail(cs: seq<string>)
    requires cs != [] && AllSlashes(cs[0])
    ensures NoStraySlashes(cs) <==> NoStraySlashes(cs[1..])
  {
    var rest := cs[1..];
    if NoStraySlashes(rest) {
      forall i, j | 0 <= i < j < |cs| && !AllSlashes(cs[i])
        ensures !OnlySlashes(cs[j])
      {
        assert rest[i - 1] == cs[i] && rest[j - 1] == cs[j];
      }
    }
    if NoStraySlashes(cs) {
      forall i, j | 0 <= i < j < |rest| && !AllSlashes(rest[i])
        ensures !OnlySlashes(rest[j])
      {
        assert rest[i] == cs[i + 1] && rest[j] == cs[j + 1];
      }
    }
  }

  lemma StrayFirst(cs: seq<string>)
    requires cs != [] && !AllSlashes(cs[0])
    ensures NoStraySlashes(cs) <==> NoneOnlySlashes(cs[1..])
  {
    var rest := cs[1..];
    if NoStraySlashes(cs) {
      forall j | 0 <= j < |rest|
        ensures !OnlySlashes(rest[j])
      {
        assert rest[j] == cs[j + 1];
      }
    }
    if NoneOnlySlashes(rest) {
      forall i, j | 0 <= i < j < |cs| && !AllSlashes(cs[i])
        ensures !OnlySlashes(cs[j])
      {
        assert rest[j - 1] == cs[j];
      }
    }
  }

  lemma {:induction false} TailAgain(cs: seq<string>)
    ensures Tail(TailParts(cs)) == Tail(cs) <==> NoneOnlySlashes(cs)
    ensures |Tail(TailParts(cs))| <= |Tail(cs)|
    decreases |cs|
  {
    if cs != [] {
      TailAgain(cs[1..]);
      OnlySlashesHead(cs);
      SqueezedToNothing(cs[0]);
      var n := NonEmpty(cs);
      var rest := Tail(TailParts(cs[1..]));
      if cs[0] == [] {
        assert n == NonEmpty(cs[1..]) && Tail(cs) == Tail(cs[1..]);
      } else {
        var c := Squeeze(cs[0]);
        assert n[0] == cs[0] && n[1..] == NonEmpty(cs[1..]);
        assert TailParts(cs)[0] == c && TailParts(cs)[1..] == TailParts(cs[1..]);
        SqueezeTwice(cs[0]);
        if c == [] {
          assert Tail(TailParts(cs)) == rest;
          assert |Tail(cs)| > |Tail(cs[1..])|;
        } else {
          assert Tail(TailParts(cs)) == [PATHSEP] + c + rest;
          assert Tail(cs) == [PATHSEP] + c + Tail(cs[1..]);
          assert Tail(TailParts(cs))[|c| + 1..] == rest && Tail(cs)[|c| + 1..] == Tail(cs[1..]);
        }
      }
    }
  }

  lemma {:induction false} LeadAgain(cs: seq<string>)
    requires AllFree(cs, PATHSEP)
    ensures Lead(Split(Lead(cs), PATHSEP)) == Lead(cs) <==> NoStraySlashes(cs)
    decreases |cs|
  {
    if cs == [] {
      assert Split([], PATHSEP) == [[]];
    } else if Squeeze(cs[0]) == [] {
      SqueezedToNothing(cs[0]);
      StrayTail(cs);
      LeadAgain(cs[1..]);
    } else {
      SqueezedToNothing(cs[0]);
      StrayFirst(cs);
      var s, rest := Squeeze(cs[0]), cs[1..];
      SqueezeFree(cs[0]);
      SqueezeTwice(cs[0]);
      SplitTail(s, rest);
      TailAgain(rest);
      var again := [s] + TailParts(rest);
      assert again[1..] == TailParts(rest);
      assert Lead(again) == s + Tail(TailParts(rest));
      assert (s + Tail(TailParts(rest)))[|s|..] == Tail(TailParts(rest));
      assert (s + Tail(rest))[|s|..] == Tail(rest);
    }
  }

  /** Canonicalising again changes nothing exactly when no component made of slashes
      only follows one that is not. */
  lemma CanonicalAgain(p: string)
    ensures Canonical(Canonical(p)) == Canonical(p) <==> NoStraySlashes(Split(p, PATHSEP))
  {
    CanonicalByComponents(p);
    CanonicalByComponents(Canonical(p));
    SplitAllFree(p, PATHSEP);
    LeadAgain(Split(p, PATHSEP));
  }

  /** A list with a root directory in the middle is not final after one pass. */
  lemma RootInTheMiddle()
    ensures Canonical("a:/:b") == "a::b" && Canonical("a::b") == "a:b"
  {
  }
}
