/**
 Vectors of zero-terminated entries: splitting a path list into one, walking it
 and joining it again.
 */
module Argz {
  import opened Words
  import opened SearchPaths

  /** What the rest of a string adds to the vector; `open` while an entry is being
      written. */
  function Vector(s: string, d: char, open: bool): (r: string)
    ensures |r| >= 1 && r[|r| - 1] == EOS
  {
    if s == [] then [EOS]
    else if s[0] != d then [s[0]] + Vector(s[1..], d, true)
    else if open then [EOS] + Vector(s[1..], d, false)
    else Vector(s[1..], d, false)
  }

  lemma {:induction false} VectorLength(s: string, d: char, open: bool)
    ensures |Vector(s, d, open)| <= |s| + 1
  {
    if s != [] {
      VectorLength(s[1..], d, s[0] != d);
    }
  }

  predicate Text(s: string) { forall i :: 0 <= i < |s| ==> s[i] != EOS }

  /** argz_create_sep */
  method ArgzCreateSep(str: string, delim: char) returns (argz: string)
    requires Text(str)
    ensures argz == Vector(str, delim, false)
  {
    var argzLen := 1 + |str|;
    var buffer := new char[argzLen](_ => EOS);
    var q := 0;
    WrittenNone(buffer[..0], str, delim);
    for p := 0 to |str|
      modifies buffer
      invariant 0 <= q <= p && argzLen == q + 1 + |str| - p
      invariant Written(buffer[..q], str, p, delim)
    {
      VectorStep(buffer[..q], str, p, delim);
      var next := CopyChar(buffer, q, str[p], delim);
      if next == q {
        argzLen := argzLen - 1;
      }
      q := next;
    }
    WrittenAll(buffer[..q], str, delim);
    buffer[q] := EOS;
    argz := buffer[..argzLen];
    assert argz == buffer[..q] + [EOS];
  }

  /** What one character adds to the output. */
  function Added(out: string, c: char, d: char): string {
    if c != d then [c] else if Open(out) then [EOS] else []
  }

  /** One turn of the loop of argz_create_sep: leading delimiters are dropped, a run of
      them becomes one terminator. */
  method CopyChar(buffer: array<char>, q: nat, c: char, delim: char) returns (next: nat)
    requires q < buffer.Length
    modifies buffer
    ensures q <= next <= q + 1
    ensures buffer[..next] == old(buffer[..q]) + Added(old(buffer[..q]), c, delim)
  {
    ghost var out := buffer[..q];
    if c == delim {
      if q > 0 && buffer[q - 1] != EOS {
        buffer[q] := EOS;
        next := q + 1;
        assert buffer[..next] == out + [EOS];
      } else {
        next := q;
      }
    } else {
      buffer[q] := c;
      next := q + 1;
      assert buffer[..next] == out + [c];
    }
  }

  predicate Open(out: string) { out != [] && out[|out| - 1] != EOS }

  /** What is written and what the rest adds make the whole vector. */
  ghost predicate Written(out: string, str: string, p: nat, d: char) {
    p <= |str| && out + Vector(str[p..], d, Open(out)) == Vector(str, d, false)
  }

  lemma WrittenNone(out: string, str: string, d: char)
    requires out == []
    ensures Written(out, str, 0, d)
  {
    assert str[0..] == str;
  }

  lemma WrittenAll(out: string, str: string, d: char)
    requires Written(out, str, |str|, d)
    ensures out + [EOS] == Vector(str, d, false)
  {
    assert str[|str|..] == [];
  }

  /** What one character moves from the rest of the string to the output. */
  lemma VectorStep(out: string, str: string, p: nat, d: char)
    requires p < |str| && Text(str) && Written(out, str, p, d)
    ensures Written(out + Added(out, str[p], d), str, p + 1, d)
  {
    var rest := str[p..];
    assert rest[0] == str[p] && rest[1..] == str[p + 1..];
    Consume(out, rest, d);
  }

  lemma Consume(out: string, rest: string, d: char)
    requires rest != [] && rest[0] != EOS
    ensures var more := out + Added(out, rest[0], d);
      out + Vector(rest, d, Open(out)) == more + Vector(rest[1..], d, Open(more))
  {
    var step := Added(out, rest[0], d);
    OpenAfter(out, rest[0], d);
    Regroup(out, step, Vector(rest[1..], d, rest[0] != d));
  }

  lemma OpenAfter(out: string, c: char, d: char)
    requires c != EOS
    ensures Open(out + Added(out, c, d)) == (c != d)
  {
    if c == d && !Open(out) {
      assert out + [] == out;
    }
  }

  lemma Regroup(a: string, b: string, c: string)
    ensures a + (b + c) == a + b + c
    ensures b == [] ==> b + c == c
  {
  }

  // ---------- walking ----------

  /** The entries of a vector: the texts before each terminator. */
  function Entries(argz: string): seq<string> {
    if argz == [] then []
    else if argz[0] == EOS then [[]] + Entries(argz[1..])
    else Prepend(argz[0], Entries(argz[1..]))
  }

  function Prepend(c: char, entries: seq<string>): seq<string> {
    if entries == [] then [[c]] else [[c] + entries[0]] + entries[1..]
  }

  /** The first terminator from an offset on. */
  function End(argz: string, i: nat): (e: nat)
    ensures i <= |argz| ==> i <= e <= |argz|
    decreases |argz| - i
  {
    if i >= |argz| || argz[i] == EOS then i else End(argz, i + 1)
  }

  lemma {:induction false} EndFound(argz: string, i: nat)
    requires i < |argz| && argz[|argz| - 1] == EOS
    ensures End(argz, i) < |argz| && argz[End(argz, i)] == EOS
    decreases |argz| - i
  {
    if argz[i] != EOS {
      EndFound(argz, i + 1);
    }
  }

  datatype Position = Start | Null | Offset(i: nat)

  /** The position behind the text at an offset. */
  function After(argz: string, i: nat): (next: Position)
    requires i < |argz|
    ensures !next.Start? && (next.Offset? ==> i < next.i < |argz|)
  {
    var from := End(argz, i) + 1;
    if from < |argz| then Offset(from) else Null
  }

  /** argz_next, on offsets into the vector. */
  method ArgzNext(argz: string, entry: Position) returns (next: Position)
    requires argz != [] && argz[|argz| - 1] == EOS
    requires entry.Offset? ==> entry.i < |argz|
    ensures next == if entry.Offset? then After(argz, entry.i) else Offset(0)
  {
    match entry {
      case Offset(i) =>
        var j := i;
        while argz[j] != EOS
          invariant i <= j < |argz| && End(argz, i) == End(argz, j)
          decreases |argz| - j
        {
          j := j + 1;
        }
        next := if j + 1 < |argz| then Offset(j + 1) else Null;
      case Start => next := Offset(0);
      case Null => next := Offset(0);
    }
  }

  /** The texts from an offset to the end, terminator by terminator. */
  function EntriesFrom(argz: string, i: nat): seq<string>
    decreases |argz| - i
  {
    if i >= |argz| then [] else [argz[i..End(argz, i)]] + EntriesFrom(argz, End(argz, i) + 1)
  }

  /** Where the entries from a position on begin. */
  function Rest(argz: string, entry: Position): nat {
    match entry
    case Start => 0
    case Null => |argz|
    case Offset(i) => i
  }

  /** A walk from the start to the end collects the entries in order. */
  method Walk(argz: string) returns (entries: seq<string>)
    requires argz != [] && argz[|argz| - 1] == EOS
    ensures entries == Entries(argz)
  {
    entries := [];
    var entry := ArgzNext(argz, Start);
    while entry.Offset?
      invariant !entry.Start? && (entry.Offset? ==> entry.i < |argz|)
      invariant entries + EntriesFrom(argz, Rest(argz, entry)) == EntriesFrom(argz, 0)
      decreases if entry.Offset? then |argz| - entry.i else 0
    {
      EndFound(argz, entry.i);
      entries := entries + [argz[entry.i..End(argz, entry.i)]];
      entry := ArgzNext(argz, entry);
    }
    SameEntries(argz, 0);
    assert argz[0..] == argz;
  }

  lemma {:induction false} SameEntries(argz: string, i: nat)
    requires i <= |argz| && (argz == [] || argz[|argz| - 1] == EOS)
    ensures EntriesFrom(argz, i) == Entries(argz[i..])
    decreases |argz| - i
  {
    if i == |argz| {
      NothingLeft(argz, i);
    } else {
      EndFound(argz, i);
      FirstEntry(argz, i);
      SameEntries(argz, End(argz, i) + 1);
    }
  }

  lemma NothingLeft(argz: string, i: nat)
    requires i == |argz|
    ensures Entries(argz[i..]) == []
  {
    assert argz[i..] == [];
  }

  lemma {:induction false} FirstEntry(argz: string, i: nat)
    requires i < |argz| && End(argz, i) < |argz|
    requires argz[End(argz, i)] == EOS
    ensures Entries(argz[i..]) == [argz[i..End(argz, i)]] + Entries(argz[End(argz, i) + 1..])
    decreases |argz| - i
  {
    assert argz[i..][0] == argz[i] && argz[i..][1..] == argz[i + 1..];
    if argz[i] == EOS {
      assert argz[i..i] == [];
    } else {
      FirstEntry(argz, i + 1);
      var e := End(argz, i);
      assert argz[i..e] == [argz[i]] + argz[i + 1..e];
      PrependFirst(argz[i], argz[i + 1..e], Entries(argz[e + 1..]));
    }
  }

  lemma PrependFirst(c: char, e: string, es: seq<string>)
    ensures Prepend(c, [e] + es) == [[c] + e] + es
  {
    assert ([e] + es)[1..] == es;
  }

  // ---------- what the vector of a string contains ----------

  lemma {:induction false} EntriesCons(c: char, v: string)
    requires c != EOS
    ensures Entries([c] + v) == Prepend(c, Entries(v))
    ensures Entries([EOS] + v) == [[]] + Entries(v)
  {
    assert ([c] + v)[1..] == v && ([EOS] + v)[1..] == v;
  }

  /** A trailing delimiter, or no text at all, leaves an empty last entry. */
  function Dangling(s: string, d: char): seq<string> {
    if s == [] || s[|s| - 1] == d then [[]] else []
  }

  /** What an open vector holds: the entry being written goes on with the first
      component. */
  function OpenList(s: string, d: char): seq<string> {
    if s == [] then [[]] else [Split(s, d)[0]] + NonEmpty(Split(s, d)[1..]) + Dangling(s, d)
  }

  function ClosedList(s: string, d: char): seq<string> {
    NonEmpty(Split(s, d)) + Dangling(s, d)
  }

  lemma AtDelimiter(s: string, d: char)
    requires s != [] && s[0] == d
    ensures OpenList(s, d) == [[]] + ClosedList(s[1..], d) && ClosedList(s, d) == ClosedList(s[1..], d)
  {
    var cs, rest := Split(s, d), Split(s[1..], d);
    assert cs[0] == [] && cs[1..] == rest;
    assert NonEmpty(cs) == NonEmpty(rest);
    assert Dangling(s, d) == Dangling(s[1..], d);
  }

  lemma AtText(s: string, d: char)
    requires s != [] && s[0] != d
    ensures OpenList(s, d) == ClosedList(s, d)
    ensures OpenList(s, d) == Prepend(s[0], OpenList(s[1..], d))
  {
    var t, cs, rest := s[1..], Split(s, d), Split(s[1..], d);
    assert cs[0] == [s[0]] + rest[0] && cs[1..] == rest[1..];
    if t == [] {
      assert rest == [[]];
    } else {
      assert OpenList(t, d)[1..] == NonEmpty(rest[1..]) + Dangling(t, d);
    }
  }

  lemma {:induction false} VectorEntries(s: string, d: char)
    requires Text(s) && d != EOS
    ensures Entries(Vector(s, d, true)) == OpenList(s, d)
    ensures Entries(Vector(s, d, false)) == ClosedList(s, d)
    decreases |s|
  {
    if s == [] {
      assert Entries([EOS]) == [[]];
      assert Split(s, d) == [[]];
    } else {
      VectorEntries(s[1..], d);
      if s[0] == d {
        AtDelimiter(s, d);
        EntriesCons(' ', Vector(s[1..], d, false));
      } else {
        AtText(s, d);
        EntriesCons(s[0], Vector(s[1..], d, true));
      }
    }
  }

  /** Splitting and walking enumerates exactly the non-empty components, in order,
      and an empty entry behind them when the string ends in a delimiter or is empty. */
  lemma CreatedEntries(s: string, d: char)
    requires Text(s) && d != EOS
    ensures Entries(Vector(s, d, false)) == NonEmpty(Split(s, d)) + Dangling(s, d)
    ensures Entries(Vector(s, d, false)) == NonEmpty(Split(s, d)) <==> s != [] && s[|s| - 1] != d
  {
    VectorEntries(s, d);
    var es := NonEmpty(Split(s, d));
    assert |es + [[]]| == |es| + 1 && es + [] == es;
  }

  // ---------- joining ----------

  /** Interior terminators become separators. */
  function Joined(argz: string, sep: char): (r: string)
    requires |argz| >= 2
    ensures |r| == |argz|
  {
    seq(|argz|, i requires 0 <= i < |argz| =>
      if 0 < i < |argz| - 1 && argz[i] == EOS then sep else argz[i])
  }

  /** argz_stringify, in place.  The length counter is unsigned (64 bits): with fewer than two
      characters it wraps around and the first access is far outside the vector. */
  method ArgzStringify(argz: array<char>, sep: char) returns (inside: bool)
    requires argz.Length < TWO_64
    modifies argz
    ensures inside <==> sep == EOS || argz.Length >= 2
    ensures argz[..] == if inside && sep != EOS then Joined(old(argz[..]), sep) else old(argz[..])
  {
    if sep == EOS {
      return true;
    }
    ghost var was := argz[..];
    var n: nat := U64(U64(argz.Length - 1) - 1);
    while n > 0
      invariant if argz.Length >= 2 then n < argz.Length - 1 else n >= argz.Length && n > 0
      invariant forall i :: 0 <= i <= n && i < argz.Length ==> argz[i] == was[i]
      invariant forall i :: n < i < argz.Length ==> argz.Length >= 2 && argz[i] == Joined(was, sep)[i]
    {
      if n >= argz.Length {
        return false;
      }
      if argz[n] == EOS {
        argz[n] := sep;
      }
      n := n - 1;
    }
    assert argz[..] == Joined(was, sep);
    inside := true;
  }

  /** No leading delimiter and no two in a row. */
  predicate Tight(s: string, d: char) {
    (s != [] ==> s[0] != d) && forall i :: 0 <= i < |s| - 1 && s[i] == d ==> s[i + 1] != d
  }

  /** Nothing is dropped from a tight string: the vector has its delimiters as terminators. */
  lemma {:induction false} TightVector(s: string, d: char, open: bool)
    requires open || s == [] || s[0] != d
    requires forall i :: 0 <= i < |s| - 1 && s[i] == d ==> s[i + 1] != d
    ensures |Vector(s, d, open)| == |s| + 1
    ensures forall i :: 0 <= i < |s| ==> Vector(s, d, open)[i] == if s[i] == d then EOS else s[i]
    decreases |s|
  {
    if s != [] {
      TightVector(s[1..], d, s[0] != d);
    }
  }

  /** A vector has more than its terminator exactly when there is text between the
      delimiters. */
  lemma {:induction false} VectorEmpty(s: string, d: char, open: bool)
    ensures |Vector(s, d, open)| >= 2 <==> (exists i :: 0 <= i < |s| && s[i] != d) || (open && s != [])
    decreases |s|
  {
    if s != [] {
      VectorEmpty(s[1..], d, s[0] != d);
      if s[0] == d {
        assert forall i :: 0 < i < |s| ==> s[i] == s[1..][i - 1];
      }
    }
  }

  /** Joining undoes splitting exactly for tight strings that are not empty; the
      vector of the empty string cannot be joined at all. */
  lemma JoinUndoesCreate(s: string, d: char)
    requires Text(s) && d != EOS
    ensures |Vector(s, d, false)| >= 2 <==> exists i :: 0 <= i < |s| && s[i] != d
    ensures |Vector(s, d, false)| >= 2 && Joined(Vector(s, d, false), d) == s + [EOS]
            <==> s != [] && Tight(s, d)
  {
    VectorEmpty(s, d, false);
    if s != [] {
      JoinNonEmpty(s, d);
    }
  }

  lemma JoinNonEmpty(s: string, d: char)
    requires Text(s) && d != EOS && s != []
    ensures |Vector(s, d, false)| >= 2 && Joined(Vector(s, d, false), d) == s + [EOS] <==> Tight(s, d)
  {
    var v := Vector(s, d, false);
    if Tight(s, d) {
      TightVector(s, d, false);
      assert forall i :: 0 <= i < |v| ==> Joined(v, d)[i] == (s + [EOS])[i];
    } else {
      LooseVector(s, d, false);
    }
  }

  /** The empty string is tight, but its vector is a lone terminator. */
  lemma EmptyVector(d: char)
    ensures Tight("", d) && Vector("", d, false) == [EOS]
  {
  }

  lemma {:induction false} LooseVector(s: string, d: char, open: bool)
    requires s != []
    requires (!open && s[0] == d) || !(forall i :: 0 <= i < |s| - 1 && s[i] == d ==> s[i + 1] != d)
    ensures |Vector(s, d, open)| < |s| + 1
    decreases |s|
  {
    VectorLength(s[1..], d, s[0] != d);
    if !open && s[0] == d {
    } else {
      var i :| 0 <= i < |s| - 1 && s[i] == d && s[i + 1] == d;
      var t := s[1..];
      if i > 0 {
        assert t[i - 1] == d && t[i] == d;
      }
      LooseVector(t, d, s[0] != d);
    }
  }

  // ---------- the whole way ----------

  predicate TightText(s: string) {
    s != [] && Tight(s, PATHSEP) && s[|s| - 1] != PATHSEP
  }

  lemma FreeTight(s: string)
    requires s != [] && Free(s, PATHSEP)
    ensures TightText(s)
  {
  }

  lemma TightJoin(s: string, r: string)
    requires TightText(s) && TightText(r)
    ensures TightText(s + [PATHSEP] + r)
  {
    var whole := s + [PATHSEP] + r;
    forall i | 0 <= i < |whole| - 1 && whole[i] == PATHSEP
      ensures whole[i + 1] != PATHSEP
    {
      if i < |s| {
        assert s[i] == PATHSEP;
      } else if i > |s| {
        assert r[i - |s| - 1] == PATHSEP;
      }
    }
  }

  lemma {:induction false} TailTight(s: string, cs: seq<string>)
    requires TightText(s) && AllFree(cs, PATHSEP) && NoneOnlySlashes(cs)
    ensures TightText(s + Tail(cs))
    decreases |cs|
  {
    if cs == [] {
      assert s + Tail(cs) == s;
    } else if cs[0] == [] {
      OnlySlashesHead(cs);
      TailTight(s, cs[1..]);
      assert Tail(cs) == Tail(cs[1..]);
    } else {
      OnlySlashesHead(cs);
      SqueezedToNothing(cs[0]);
      SqueezeFree(cs[0]);
      FreeTight(Squeeze(cs[0]));
      TailTight(Squeeze(cs[0]), cs[1..]);
      TailTightStep(s, cs);
    }
  }

  lemma TailTightStep(s: string, cs: seq<string>)
    requires TightText(s) && cs != [] && cs[0] != []
    requires TightText(Squeeze(cs[0]) + Tail(cs[1..]))
    ensures TightText(s + Tail(cs))
  {
    var r := Squeeze(cs[0]) + Tail(cs[1..]);
    TightJoin(s, r);
    assert Tail(cs) == [PATHSEP] + r;
    assert s + Tail(cs) == s + [PATHSEP] + r;
  }

  lemma {:induction false} LeadTight(cs: seq<string>)
    requires AllFree(cs, PATHSEP) && NoStraySlashes(cs) && Lead(cs) != []
    ensures TightText(Lead(cs))
    decreases |cs|
  {
    SqueezedToNothing(cs[0]);
    if Squeeze(cs[0]) == [] {
      StrayTail(cs);
      LeadTight(cs[1..]);
    } else {
      StrayFirst(cs);
      SqueezeFree(cs[0]);
      FreeTight(Squeeze(cs[0]));
      TailTight(Squeeze(cs[0]), cs[1..]);
    }
  }

  lemma {:induction false} CanonicalText(p: string, started: bool)
    requires Text(p)
    ensures Text(CanonicalRest(p, started))
    decreases |p|
  {
    if p != [] {
      CanonicalText(p[1..], started);
      CanonicalText(p[1..], true);
    }
  }

  /** For a path without stray slashes the vector made from its canonical form holds
      exactly its directories, and joining the vector gives the canonical form back. */
  lemma PathRoundTrip(p: string)
    requires Text(p) && NoStraySlashes(Split(p, PATHSEP)) && Canonical(p) != []
    ensures Entries(Vector(Canonical(p), PATHSEP, false)) == Directories(p)
    ensures |Vector(Canonical(p), PATHSEP, false)| >= 2
    ensures Joined(Vector(Canonical(p), PATHSEP, false), PATHSEP) == Canonical(p) + [EOS]
  {
    CanonicalByComponents(p);
    SplitAllFree(p, PATHSEP);
    LeadTight(Split(p, PATHSEP));
    CanonicalText(p, false);
    CreatedEntries(Canonical(p), PATHSEP);
    CanonicalDirectories(p);
    JoinUndoesCreate(Canonical(p), PATHSEP);
    assert Dangling(Canonical(p), PATHSEP) == [];
  }
}
