/**
  Names of build-context archive members: normalisation of POSIX paths, and which names are
  kept inside the context.
 */
module TarNames {

  /** The parts between slashes; there is always at least one. */
  function Split(s: string): (parts: seq<string>)
    ensures |parts| >= 1
    ensures forall p :: p in parts ==> '/' !in p
  {
    if s == "" then [""]
    else
      var rest := Split(s[1..]);
      if s[0] == '/' then [""] + rest else [[s[0]] + rest[0]] + rest[1..]
  }

  function Join(parts: seq<string>): string {
    if parts == [] then "" else if |parts| == 1 then parts[0] else parts[0] + "/" + Join(parts[1..])
  }

  predicate Skipped(part: string) { part == "" || part == "." }

  /** One part of a path, applied to the parts kept so far. */
  function Push(kept: seq<string>, part: string, absolute: bool): seq<string> {
    if Skipped(part) then kept
    else if part != ".." || (!absolute && kept == []) || (kept != [] && kept[|kept| - 1] == "..") then kept + [part]
    else if kept != [] then kept[..|kept| - 1]
    else kept
  }

  function Resolve(parts: seq<string>, absolute: bool): seq<string> {
    if parts == [] then [] else Push(Resolve(parts[..|parts| - 1], absolute), parts[|parts| - 1], absolute)
  }

  predicate Absolute(path: string) { path != "" && path[0] == '/' }

  /** POSIX gives exactly two leading slashes a meaning of their own, so they are kept. */
  function LeadingSlashes(path: string): string {
    if !Absolute(path) then ""
    else if |path| >= 2 && path[1] == '/' && !(|path| >= 3 && path[2] == '/') then "//"
    else "/"
  }

  function NormPath(path: string): string {
    var normal := LeadingSlashes(path) + Join(Resolve(Split(path), Absolute(path)));
    if normal == "" then "." else normal
  }

  function Slashes(name: string): string {
    seq(|name|, i requires 0 <= i < |name| => if name[i] == '\\' then '/' else name[i])
  }

  function LStripSlashes(s: string): string { if Absolute(s) then LStripSlashes(s[1..]) else s }

  datatype Checked = Accepted(name: string) | Empty | Escapes

  function SafeTarName(name: string): Checked {
    var normalized := LStripSlashes(NormPath(Slashes(name)));
    if normalized == "" || normalized == "." then Empty
    else if "../" <= normalized || normalized == ".." then Escapes
    else Accepted(normalized)
  }

  // ----- Depth -----

  /** How deep the parts lead: down one for a name, up one for "..". */
  function Depth(parts: seq<string>): int {
    if parts == [] then 0
    else
      var part := parts[|parts| - 1];
      Depth(parts[..|parts| - 1]) + (if Skipped(part) then 0 else if part == ".." then -1 else 1)
  }

  /** No prefix leads above the start: the whole does not, and no shorter prefix does. */
  ghost predicate NeverAbove(parts: seq<string>) {
    Depth(parts) >= 0 && (parts == [] || NeverAbove(parts[..|parts| - 1]))
  }

  /** A part that names something below. */
  predicate Name(part: string) { part != "" && part != "." && part != ".." && '/' !in part }

  ghost predicate Names(parts: seq<string>) { forall i :: 0 <= i < |parts| ==> Name(parts[i]) }

  /** Of a relative path whose prefixes stay at or below the start, names are kept, as many as it
      is deep; any other keeps a leading "..". */
  lemma {:induction false} RelativeResolve(parts: seq<string>)
    requires forall i :: 0 <= i < |parts| ==> '/' !in parts[i]
    ensures var kept := Resolve(parts, false);
            if NeverAbove(parts) then Names(kept) && |kept| == Depth(parts)
            else kept != [] && kept[0] == ".." && forall i :: 0 <= i < |kept| ==> kept[i] == ".." || Name(kept[i])
    ensures var kept := Resolve(parts, false); NoNameBeforeUp(kept)
  {
    if parts == [] {
    } else {
      var front, part := parts[..|parts| - 1], parts[|parts| - 1];
      assert forall i :: 0 <= i < |front| ==> front[i] == parts[i];
      RelativeResolve(front);
    }
  }

  /** All the ".." come first. */
  ghost predicate NoNameBeforeUp(kept: seq<string>) {
    forall i, j :: 0 <= i < j < |kept| && kept[j] == ".." ==> kept[i] == ".."
  }

  /** How deep an absolute path leads: at the root ".." leads nowhere. */
  function RootDepth(parts: seq<string>): nat {
    if parts == [] then 0
    else
      var part, depth := parts[|parts| - 1], RootDepth(parts[..|parts| - 1]);
      if Skipped(part) then depth else if part != ".." then depth + 1 else if depth > 0 then depth - 1 else 0
  }

  lemma PushKeepsNames(kept: seq<string>, part: string)
    requires Names(kept) && '/' !in part
    ensures var next := Push(kept, part, true);
            && Names(next)
            && |next| == if Skipped(part) then |kept| else if part != ".." then |kept| + 1
                         else if |kept| > 0 then |kept| - 1 else 0
  {
    assert kept != [] ==> Name(kept[|kept| - 1]);
  }

  /** Of an absolute path names are kept, as many as it is deep. */
  lemma {:induction false} AbsoluteResolve(parts: seq<string>)
    requires forall i :: 0 <= i < |parts| ==> '/' !in parts[i]
    ensures Names(Resolve(parts, true)) && |Resolve(parts, true)| == RootDepth(parts)
  {
    if parts == [] {
    } else {
      var front := parts[..|parts| - 1];
      forall i | 0 <= i < |front| ensures '/' !in front[i] { assert front[i] == parts[i]; }
      AbsoluteResolve(front);
      PushKeepsNames(Resolve(front, true), parts[|parts| - 1]);
    }
  }

  /** Where ".." never meets the root they are those of the same path taken from anywhere else. */
  lemma {:induction false} AbsoluteAsRelative(parts: seq<string>)
    requires (forall i :: 0 <= i < |parts| ==> '/' !in parts[i]) && NeverAbove(parts)
    ensures Resolve(parts, true) == Resolve(parts, false)
  {
    if parts == [] {
    } else {
      var front := parts[..|parts| - 1];
      forall i | 0 <= i < |front| ensures '/' !in front[i] { assert front[i] == parts[i]; }
      AbsoluteAsRelative(front);
      RelativeResolve(front);
    }
  }

  // ----- Joining and splitting -----

  lemma {:induction false} SplitPart(p: string)
    requires '/' !in p
    ensures Split(p) == [p]
  {
    if p == "" {
    } else {
      assert forall i :: 0 <= i < |p| - 1 ==> p[1..][i] == p[i + 1];
      SplitPart(p[1..]);
      assert [p[0]] + p[1..] == p;
    }
  }

  lemma {:induction false} SplitAfter(p: string, rest: string)
    requires '/' !in p
    ensures Split(p + "/" + rest) == [p] + Split(rest)
  {
    var s := p + "/" + rest;
    if p == "" {
      assert s[1..] == rest;
    } else {
      assert s[1..] == p[1..] + "/" + rest;
      assert forall i :: 0 <= i < |p| - 1 ==> p[1..][i] == p[i + 1];
      SplitAfter(p[1..], rest);
      assert [p[0]] + p[1..] == p;
      assert ([p[1..]] + Split(rest))[1..] == Split(rest);
    }
  }

  /** Splitting undoes joining. */
  lemma {:induction false} SplitJoin(parts: seq<string>)
    requires parts != [] && forall i :: 0 <= i < |parts| ==> '/' !in parts[i]
    ensures Split(Join(parts)) == parts
  {
    if |parts| == 1 {
      SplitPart(parts[0]);
    } else {
      SplitJoin(parts[1..]);
      SplitAfter(parts[0], Join(parts[1..]));
      assert [parts[0]] + parts[1..] == parts;
    }
  }

  lemma JoinStarts(parts: seq<string>)
    requires parts != [] && parts[0] != ""
    ensures Join(parts) != "" && parts[0] <= Join(parts)
    ensures |parts| > 1 ==> parts[0] + "/" <= Join(parts)
  {
  }

  /** Names resolve to themselves. */
  lemma {:induction false} NamesResolve(parts: seq<string>, absolute: bool)
    requires Names(parts)
    ensures Resolve(parts, absolute) == parts
  {
    if parts == [] {
    } else {
      NamesResolve(parts[..|parts| - 1], absolute);
      assert parts[..|parts| - 1] + [parts[|parts| - 1]] == parts;
    }
  }

  // ----- Which names are accepted -----

  /** The parts kept of a name. */
  function Kept(name: string): seq<string> { Resolve(Split(Slashes(name)), Absolute(Slashes(name))) }

  lemma KeptHasNoSlash(name: string)
    ensures forall i :: 0 <= i < |Kept(name)| ==> '/' !in Kept(name)[i] && Kept(name)[i] != "" && Kept(name)[i] != "."
  {
    var parts := Split(Slashes(name));
    assert forall i :: 0 <= i < |parts| ==> parts[i] in parts;
    if Absolute(Slashes(name)) { AbsoluteResolve(parts); } else { RelativeResolve(parts); }
  }

  lemma OneSlash(s: string)
    ensures LStripSlashes("/" + s) == LStripSlashes(s)
  {
    assert ("/" + s)[1..] == s;
  }

  lemma LStripLeading(slashes: string, s: string)
    requires slashes in {"", "/", "//"} && !Absolute(s)
    ensures LStripSlashes(slashes + s) == s
  {
    if slashes == "" {
      assert "" + s == s;
    } else {
      OneSlash(s);
      if slashes == "//" {
        OneSlash("/" + s);
        assert "//" + s == "/" + ("/" + s);
      }
    }
  }

  /** What is checked is the kept parts, joined. */
  lemma CheckedIsKept(name: string)
    ensures SafeTarName(name) ==
              if Kept(name) == [] then Empty else if Kept(name)[0] == ".." then Escapes else Accepted(Join(Kept(name)))
  {
    var path, kept := Slashes(name), Kept(name);
    KeptHasNoSlash(name);
    if kept == [] {
      LStripLeading(LeadingSlashes(path), "");
      assert LStripSlashes(".") == ".";
    } else {
      JoinStarts(kept);
      var joined := Join(kept);
      assert joined[0] == kept[0][0];
      LStripLeading(LeadingSlashes(path), joined);
      JoinedIsName(kept);
    }
  }

  lemma JoinedIsName(kept: seq<string>)
    requires kept != [] && forall i :: 0 <= i < |kept| ==> '/' !in kept[i] && kept[i] != "" && kept[i] != "."
    ensures Join(kept) != "."
    ensures "../" <= Join(kept) || Join(kept) == ".." <==> kept[0] == ".."
  {
    var joined := Join(kept);
    SplitJoin(kept);
    SplitPart(".");
    SplitPart("..");
    if "../" <= joined { UpFirst(joined); }
    if kept[0] == ".." {
      JoinStarts(kept);
      assert |kept| == 1 ==> joined == "..";
    }
  }

  lemma UpFirst(s: string)
    requires "../" <= s
    ensures Split(s)[0] == ".."
  {
    assert s == ".." + "/" + s[3..];
    SplitAfter("..", s[3..]);
  }

  lemma NamesAreAccepted(kept: seq<string>)
    requires kept != [] && Names(kept) && '\\' !in Join(kept)
    ensures SafeTarName(Join(kept)) == Accepted(Join(kept)) && !Absolute(Join(kept)) && Split(Join(kept)) == kept
  {
    var safe := Join(kept);
    SplitJoin(kept);
    JoinStarts(kept);
    assert safe[0] == kept[0][0];
    assert Slashes(safe) == safe;
    NamesResolve(kept, false);
    CheckedIsKept(safe);
  }

  /** A relative name is accepted exactly when no prefix of its parts leads above the start and
      the whole leads below it; it escapes exactly when some prefix leads above. */
  lemma RelativeAcceptedIff(name: string)
    requires !Absolute(Slashes(name))
    ensures var parts := Split(Slashes(name));
            && (SafeTarName(name).Accepted? <==> NeverAbove(parts) && Depth(parts) > 0)
            && (SafeTarName(name).Escapes? <==> !NeverAbove(parts))
  {
    var parts := Split(Slashes(name));
    assert forall i :: 0 <= i < |parts| ==> parts[i] in parts;
    RelativeResolve(parts);
    CheckedIsKept(name);
  }

  /** An absolute name never escapes. It is accepted exactly when it leads below the root, with as
      many names as it is deep, and where ".." never meets the root it is accepted as the relative
      path behind its slashes would be. */
  lemma AbsoluteAcceptedIff(name: string)
    requires Absolute(Slashes(name))
    ensures var parts := Split(Slashes(name));
            && !SafeTarName(name).Escapes?
            && (SafeTarName(name).Accepted? <==> RootDepth(parts) > 0)
            && (SafeTarName(name).Accepted? ==> |Split(SafeTarName(name).name)| == RootDepth(parts))
            && (SafeTarName(name).Accepted? && NeverAbove(parts) ==>
                SafeTarName(name).name == Join(Resolve(parts, false)))
  {
    var parts := Split(Slashes(name));
    assert forall i :: 0 <= i < |parts| ==> parts[i] in parts;
    AbsoluteResolve(parts);
    if NeverAbove(parts) { AbsoluteAsRelative(parts); }
    CheckedIsKept(name);
    if Kept(name) != [] { SplitJoin(Kept(name)); }
  }

  lemma {:induction false} JoinHas(parts: seq<string>, c: char)
    requires forall i :: 0 <= i < |parts| ==> c !in parts[i]
    requires c != '/'
    ensures c !in Join(parts)
  {
    if |parts| > 1 {
      JoinHas(parts[1..], c);
    }
  }

  lemma {:induction false} SplitKeepsOut(s: string, c: char)
    requires c !in s
    ensures forall i :: 0 <= i < |Split(s)| ==> c !in Split(s)[i]
  {
    if s == "" {
    } else {
      SplitKeepsOut(s[1..], c);
    }
  }

  lemma {:induction false} ResolveKeeps(parts: seq<string>, absolute: bool, c: char)
    requires forall i :: 0 <= i < |parts| ==> c !in parts[i]
    ensures forall i :: 0 <= i < |Resolve(parts, absolute)| ==> c !in Resolve(parts, absolute)[i]
  {
    if parts == [] {
    } else {
      ResolveKeeps(parts[..|parts| - 1], absolute, c);
    }
  }

  /** Every accepted result is relative, is made of names only (no "..", no "."), and is accepted
      again as itself. */
  lemma AcceptedIsNormal(name: string)
    requires SafeTarName(name).Accepted?
    ensures var safe := SafeTarName(name).name;
            && !Absolute(safe) && '\\' !in safe && Names(Split(safe)) && SafeTarName(safe) == Accepted(safe)
  {
    var path, kept := Slashes(name), Kept(name);
    var parts := Split(path);
    assert forall i :: 0 <= i < |parts| ==> parts[i] in parts;
    CheckedIsKept(name);
    KeptHasNoSlash(name);
    if Absolute(path) { AbsoluteResolve(parts); } else { RelativeResolve(parts); }
    assert Names(kept);
    assert '\\' !in path;
    SplitKeepsOut(path, '\\');
    ResolveKeeps(parts, Absolute(path), '\\');
    JoinHas(kept, '\\');
    NamesAreAccepted(kept);
  }

  // ----- What a path leads to -----

  lemma {:induction false} ResolveFrom(a: seq<string>, b: seq<string>, c: seq<string>, absolute: bool)
    requires Resolve(a, absolute) == Resolve(b, absolute)
    ensures Resolve(a + c, absolute) == Resolve(b + c, absolute)
  {
    if c == [] {
      assert a + c == a && b + c == b;
    } else {
      var front, last := c[..|c| - 1], c[|c| - 1];
      ResolveFrom(a, b, front, absolute);
      assert (a + c)[..|a + c| - 1] == a + front && (b + c)[..|b + c| - 1] == b + front;
    }
  }

  lemma ResolveOne(a: seq<string>, part: string, absolute: bool)
    ensures Resolve(a + [part], absolute) == Push(Resolve(a, absolute), part, absolute)
  {
    assert (a + [part])[..|a|] == a;
  }

  /** A name is kept behind what the path in front of it leads to. */
  lemma NameIsKept(a: seq<string>, name: string, absolute: bool)
    requires Name(name)
    ensures Resolve(a + [name], absolute) == Resolve(a, absolute) + [name]
  {
    ResolveOne(a, name, absolute);
  }

  /** Empty parts and "." lead nowhere, wherever they stand. */
  lemma DotLeadsNowhere(a: seq<string>, part: string, b: seq<string>, absolute: bool)
    requires part == "" || part == "."
    ensures Resolve(a + [part] + b, absolute) == Resolve(a + b, absolute)
  {
    ResolveOne(a, part, absolute);
    ResolveFrom(a + [part], a, b, absolute);
  }

  /** Going into a name and up again leads nowhere either. */
  lemma NameAndBack(a: seq<string>, name: string, b: seq<string>, absolute: bool)
    requires Name(name)
    ensures Resolve(a + [name, ".."] + b, absolute) == Resolve(a + b, absolute)
  {
    NameIsKept(a, name, absolute);
    ResolveOne(a + [name], "..", absolute);
    assert a + [name] + [".."] == a + [name, ".."];
    assert (Resolve(a, absolute) + [name])[..|Resolve(a, absolute)|] == Resolve(a, absolute);
    ResolveFrom(a + [name, ".."], a, b, absolute);
  }

  /** Above its start a relative path goes on upwards; an absolute one stays at the root. */
  lemma UpFromTheTop(n: nat)
    ensures Resolve(seq(n, _ => ".."), false) == seq(n, _ => "..") && Resolve(seq(n, _ => ".."), true) == []
  {
    if n == 0 {
    } else {
      UpFromTheTop(n - 1);
      assert seq(n, _ => "..") == seq(n - 1, _ => "..") + [".."];
      ResolveOne(seq(n - 1, _ => ".."), "..", false);
      ResolveOne(seq(n - 1, _ => ".."), "..", true);
    }
  }

  /** Backslashes count as slashes. */
  lemma BackslashesAreSlashes(name: string, other: string)
    requires |name| == |other|
    requires forall k :: 0 <= k < |name| ==> name[k] == other[k] || (name[k] in {'/', '\\'} && other[k] in {'/', '\\'})
    ensures SafeTarName(name) == SafeTarName(other)
  {
    assert Slashes(name) == Slashes(other);
  }

}
