/**
  The reference under which a built template image is pushed to a registry, and how it is
  taken apart again.
 */
module RegistryRefs {
  import opened Text
  import opened Wrappers

  // ----- Cleaning -----

  function LTrim(s: string, drop: set<char>): string {
    if s != "" && s[0] in drop then LTrim(s[1..], drop) else s
  }

  function RTrim(s: string, drop: set<char>): string {
    if s != "" && s[|s| - 1] in drop then RTrim(s[..|s| - 1], drop) else s
  }

  function Trim(s: string, drop: set<char>): string { RTrim(LTrim(s, drop), drop) }

  /** Every longest run of characters that are not allowed becomes one dash. */
  function Squash(s: string, allowed: char -> bool): string {
    if s == "" then ""
    else (if allowed(s[0]) then [s[0]] else if |s| > 1 && !allowed(s[1]) then "" else "-") + Squash(s[1..], allowed)
  }

  function Cut(s: string, limit: nat): string { if |s| <= limit then s else s[..limit] }

  predicate IsNameChar(c: char) { 'a' <= c <= 'z' || IsDigit(c) || c in {'.', '_', '-'} }

  predicate IsTagChar(c: char) { 'A' <= c <= 'Z' || IsNameChar(c) }

  const ENDS: set<char> := {'.', '-'}

  const NAME_LIMIT: nat := 48
  const PART_LIMIT: nat := 64
  const TAG_LIMIT: nat := 128

  function SanitizeForTag(id: string): string {
    var s := Trim(Squash(Lower(Strip(id)), IsNameChar), {'-'});
    Cut(if s == "" then "tpl" else s, NAME_LIMIT)
  }

  function SanitizeComponent(value: string, limit: nat): string {
    var s := Trim(Squash(Strip(value), IsTagChar), ENDS);
    Cut(if s == "" then "latest" else s, limit)
  }

  predicate All(s: string, allowed: char -> bool) { forall k :: 0 <= k < |s| ==> allowed(s[k]) }

  /** A tag of the "Pulling manifests" section of the OCI Distribution Specification. */
  predicate ValidTag(t: string) { 1 <= |t| <= TAG_LIMIT && All(t, IsTagChar) && t[0] !in ENDS }

  // ----- The published reference -----

  datatype Layout = SingleRepository | RepositoryPerTemplate

  function Base(prefix: string): string { RTrim(Strip(prefix), {'/'}) }

  function Dashless(s: string): (r: string)
    ensures |r| == |s|
  {
    seq(|s|, k requires 0 <= k < |s| => if s[k] == '-' then '_' else s[k])
  }

  function Server(prefix: string): string {
    var stripped := Strip(prefix);
    var first := Strip(if IndexOf(stripped, '/') >= 0 then stripped[..IndexOf(stripped, '/')] else stripped);
    if '.' in first || ':' in first || first == "localhost" then first else ""
  }

  predicate IsEcr(prefix: string) {
    var server := Lower(Server(prefix));
    server == "public.ecr.aws" || Find(server, ".dkr.ecr.") >= 0 || EndsWith(server, ".amazonaws.com")
  }

  /** None is the error for a layout that is not known. */
  function ResolveLayout(prefix: string, requested: string): Option<Layout> {
    var layout := Dashless(Lower(Strip(if requested == "" then "auto" else requested)));
    if layout in {"single", "single_repo", "single_repository"} then Some(SingleRepository)
    else if layout in {"per_template", "repository_per_template", "subrepository"} then Some(RepositoryPerTemplate)
    else if layout != "auto" then None
    else if IsEcr(prefix) then Some(SingleRepository)
    else Some(RepositoryPerTemplate)
  }

  /** The tag of the local reference: what follows a colon in its last path component. */
  function LocalTag(localRef: string): string {
    if ':' in localRef[LastIndexOf(localRef, '/') + 1..] then localRef[LastIndexOf(localRef, ':') + 1..] else "latest"
  }

  function Repository(base: string, id: string, layout: Layout): string {
    if layout == SingleRepository then base else base + "/" + SanitizeForTag(id)
  }

  function PublishedTag(localRef: string, id: string, layout: Layout): string {
    if layout == SingleRepository then
      SanitizeComponent(SanitizeForTag(id) + "-" + SanitizeComponent(LocalTag(localRef), PART_LIMIT), TAG_LIMIT)
    else
      LocalTag(localRef)
  }

  function PublishedRef(localRef: string, id: string, prefix: string, requested: string): Option<string> {
    if Base(prefix) == "" then Some(localRef)
    else
      var layout := ResolveLayout(Base(prefix), requested);
      if layout == None then None
      else Some(Repository(Base(prefix), id, layout.value) + ":" + PublishedTag(localRef, id, layout.value))
  }

  // ----- Taking a reference apart -----

  /** The split used for the push. */
  function SplitAtLastColon(ref: string): Option<(string, string)> {
    var i := LastIndexOf(ref, ':');
    if i < 0 then None else Some((ref[..i], ref[i + 1..]))
  }

  /** The split used to pull and to check an image: a colon in front of the last slash is a port. */
  function SplitRepositoryTag(imageRef: string): (string, Option<string>) {
    var ref := Strip(imageRef);
    var colon := LastIndexOf(ref, ':');
    if colon > LastIndexOf(ref, '/')
        then (ref[..colon], if ref[colon + 1..] == "" then None else Some(ref[colon + 1..]))
    else (ref, None)
  }

  /** Whether an image reference is one of the registry the prefix names. */
  predicate IsOurs(imageRef: string, prefix: string)
    requires Base(prefix) != ""
  {
    var ref := Strip(imageRef);
    ref == Base(prefix) || Base(prefix) + "/" <= ref || Base(prefix) + ":" <= ref
  }

  // ----- Lemmas on cleaning -----

  lemma {:induction false} LTrimMeaning(s: string, drop: set<char>) returns (i: nat)
    ensures i <= |s| && LTrim(s, drop) == s[i..] && (i < |s| ==> s[i] !in drop)
    ensures forall k :: 0 <= k < i ==> s[k] in drop
  {
    i := 0;
    if s != "" && s[0] in drop {
      var j := LTrimMeaning(s[1..], drop);
      i := j + 1;
      assert forall k :: 1 <= k < |s| ==> s[k] == s[1..][k - 1];
    }
  }

  lemma {:induction false} RTrimMeaning(s: string, drop: set<char>) returns (j: nat)
    ensures j <= |s| && RTrim(s, drop) == s[..j] && (j > 0 ==> s[j - 1] !in drop)
    ensures forall k :: j <= k < |s| ==> s[k] in drop
  {
    j := |s|;
    if s != "" && s[|s| - 1] in drop {
      j := RTrimMeaning(s[..|s| - 1], drop);
      assert forall k :: 0 <= k < |s| - 1 ==> s[k] == s[..|s| - 1][k];
    }
  }

  /** Trimming drops exactly the outer characters of the set. */
  lemma TrimMeaning(s: string, drop: set<char>) returns (i: nat, j: nat)
    ensures i <= j <= |s| && Trim(s, drop) == s[i..j] && (i < j ==> s[i] !in drop && s[j - 1] !in drop)
    ensures forall k :: 0 <= k < i || j <= k < |s| ==> s[k] in drop
  {
    i := LTrimMeaning(s, drop);
    var n := RTrimMeaning(s[i..], drop);
    j := i + n;
    assert s[i..][..n] == s[i..j];
    assert forall k :: i <= k < |s| ==> s[k] == s[i..][k - i];
  }

  lemma {:induction false} SquashMeaning(s: string, allowed: char -> bool)
    requires allowed('-')
    ensures |Squash(s, allowed)| <= |s| && All(Squash(s, allowed), allowed)
    ensures All(s, allowed) ==> Squash(s, allowed) == s
  {
    if s == "" {
    } else {
      SquashMeaning(s[1..], allowed);
      assert s == [s[0]] + s[1..];
    }
  }

  lemma CutMeaning(s: string, i: nat, j: nat, fallback: string, limit: nat, allowed: char -> bool)
    requires i <= j <= |s| && All(s, allowed) && All(fallback, allowed) && fallback != "" && limit >= 1
    ensures var r := Cut(if s[i..j] == "" then fallback else s[i..j], limit);
            && 1 <= |r| <= limit && All(r, allowed) && r[0] == if i < j then s[i] else fallback[0]
  {
    var whole := if s[i..j] == "" then fallback else s[i..j];
    var r := Cut(whole, limit);
    forall k | 0 <= k < |r| ensures allowed(r[k]) {
      assert r[k] == if i < j then s[i + k] else fallback[k];
    }
  }

  lemma FallbacksAreClean()
    ensures All("latest", IsTagChar) && All("tpl", IsNameChar)
  {
  }

  /** A cleaned component starts like a tag, has a tag's characters and its length. */
  lemma ComponentIsTag(value: string, limit: nat)
    requires 1 <= limit <= TAG_LIMIT
    ensures ValidTag(SanitizeComponent(value, limit)) && |SanitizeComponent(value, limit)| <= limit
  {
    var squashed := Squash(Strip(value), IsTagChar);
    SquashMeaning(Strip(value), IsTagChar);
    var i, j := TrimMeaning(squashed, ENDS);
    FallbacksAreClean();
    CutMeaning(squashed, i, j, "latest", limit, IsTagChar);
  }

  lemma NameIsClean(id: string)
    ensures 1 <= |SanitizeForTag(id)| <= NAME_LIMIT && All(SanitizeForTag(id), IsNameChar)
        && SanitizeForTag(id)[0] != '-'
  {
    var squashed := Squash(Lower(Strip(id)), IsNameChar);
    SquashMeaning(Lower(Strip(id)), IsNameChar);
    var i, j := TrimMeaning(squashed, {'-'});
    FallbacksAreClean();
    CutMeaning(squashed, i, j, "tpl", NAME_LIMIT, IsNameChar);
  }

  /** The text needs no cleaning. */
  predicate Clean(v: string, limit: nat) {
    v != "" && |v| <= limit && All(v, IsTagChar) && v[0] !in ENDS && v[|v| - 1] !in ENDS
  }

  lemma CleanIsKept(v: string, limit: nat)
    requires 1 <= limit <= TAG_LIMIT && Clean(v, limit)
    ensures SanitizeComponent(v, limit) == v
  {
    TagCharsAreNoSpace(v);
    SquashMeaning(v, IsTagChar);
    var i, j := TrimMeaning(v, ENDS);
    assert i == 0 && j == |v| && v[0..|v|] == v;
  }

  lemma KeptIsClean(v: string, limit: nat)
    requires 1 <= limit <= TAG_LIMIT && SanitizeComponent(v, limit) == v
    ensures Clean(v, limit)
  {
    ComponentIsTag(v, limit);
    TagCharsAreNoSpace(v);
    SquashMeaning(v, IsTagChar);
    var i, j := TrimMeaning(v, ENDS);
  }

  /** Cleaning changes nothing exactly on the texts that need none. */
  lemma ComponentFixedIff(v: string, limit: nat)
    requires 1 <= limit <= TAG_LIMIT
    ensures SanitizeComponent(v, limit) == v <==>
            v != "" && |v| <= limit && All(v, IsTagChar) && v[0] !in ENDS && v[|v| - 1] !in ENDS
  {
    if Clean(v, limit) {
      CleanIsKept(v, limit);
    } else if SanitizeComponent(v, limit) == v {
      KeptIsClean(v, limit);
    }
  }

  /** In the single repository layout the tag is never cut: it is both parts around a dash,
      without dots and dashes at its ends, and it is never the fallback. */
  lemma SingleTagIs(localRef: string, id: string)
    ensures var parts := SanitizeForTag(id) + "-" + SanitizeComponent(LocalTag(localRef), PART_LIMIT);
            var tag := PublishedTag(localRef, id, SingleRepository);
            && ValidTag(tag) && |tag| <= 113
            && tag == Trim(parts, ENDS)
  {
    var name, part := SanitizeForTag(id), SanitizeComponent(LocalTag(localRef), PART_LIMIT);
    NameIsClean(id);
    ComponentIsTag(LocalTag(localRef), PART_LIMIT);
    ComponentIsTag(name + "-" + part, TAG_LIMIT);
    PartsAreKept(name, part);
  }

  lemma PartsAreClean(name: string, part: string)
    requires All(name, IsNameChar) && All(part, IsTagChar)
    ensures All(name + "-" + part, IsTagChar)
  {
    var parts := name + "-" + part;
    forall k | 0 <= k < |parts| ensures IsTagChar(parts[k]) {
      assert parts[k] == if k < |name| then name[k] else if k == |name| then '-' else part[k - |name| - 1];
      assert k < |name| ==> IsNameChar(name[k]);
      assert k > |name| ==> IsTagChar(part[k - |name| - 1]);
    }
  }

  lemma TagCharsAreNoSpace(s: string)
    requires All(s, IsTagChar)
    ensures Strip(s) == s
  {
    if s != "" { assert IsTagChar(s[0]) && IsTagChar(s[|s| - 1]); }
    StripIsTrimmed(s);
  }

  lemma PartsAreKept(name: string, part: string)
    requires 1 <= |name| <= NAME_LIMIT && All(name, IsNameChar)
    requires ValidTag(part) && |part| <= PART_LIMIT
    ensures var parts := name + "-" + part;
            SanitizeComponent(parts, TAG_LIMIT) == Trim(parts, ENDS) && |Trim(parts, ENDS)| <= |parts|
  {
    var parts := name + "-" + part;
    PartsAreClean(name, part);
    TagCharsAreNoSpace(parts);
    SquashMeaning(parts, IsTagChar);
    var i, j := TrimMeaning(parts, ENDS);
    assert parts[|name| + 1] == part[0];
  }

  // ----- The two splits -----

  lemma TagBehindColon(s: string)
    requires ':' in s[LastIndexOf(s, '/') + 1..]
    ensures ':' !in s[LastIndexOf(s, ':') + 1..] && '/' !in s[LastIndexOf(s, ':') + 1..]
  {
    AfterLast(s, ':', LastIndexOf(s, '/') + 1);
    NoneAfterLast(s, '/');
    NotInSuffix(s, '/', LastIndexOf(s, '/') + 1, LastIndexOf(s, ':') + 1);
  }

  lemma LocalTagIsPlain(localRef: string)
    ensures ':' !in LocalTag(localRef) && '/' !in LocalTag(localRef)
  {
    if ':' in localRef[LastIndexOf(localRef, '/') + 1..] { TagBehindColon(localRef); }
  }

  lemma PublishedTagIsPlain(localRef: string, id: string, layout: Layout)
    ensures ':' !in PublishedTag(localRef, id, layout) && '/' !in PublishedTag(localRef, id, layout)
  {
    LocalTagIsPlain(localRef);
    if layout == SingleRepository { SingleTagIs(localRef, id); }
  }

  lemma BaseStartsPlain(prefix: string)
    requires Base(prefix) != ""
    ensures !IsSpace(Base(prefix)[0])
  {
    StripIsTrimmed(prefix);
    var j := RTrimMeaning(Strip(prefix), {'/'});
  }

  /** In both layouts the last colon of a published reference separates the repository from the
      tag. In the single repository layout that is the base, and the tag is one of the grammar;
      with a repository per template it is one exactly when the local tag is. */
  lemma PublishedSplits(localRef: string, id: string, prefix: string, requested: string)
    requires Base(prefix) != "" && ResolveLayout(Base(prefix), requested).Some?
    ensures var layout := ResolveLayout(Base(prefix), requested).value;
            && PublishedRef(localRef, id, prefix, requested).Some?
            && SplitAtLastColon(PublishedRef(localRef, id, prefix, requested).value)
               == Some((Repository(Base(prefix), id, layout), PublishedTag(localRef, id, layout)))
            && (layout == SingleRepository ==> Repository(Base(prefix), id, layout) == Base(prefix))
            && (ValidTag(PublishedTag(localRef, id, layout)) <==>
                layout == SingleRepository || ValidTag(LocalTag(localRef)))
  {
    var layout := ResolveLayout(Base(prefix), requested).value;
    var repo, tag := Repository(Base(prefix), id, layout), PublishedTag(localRef, id, layout);
    PublishedTagIsPlain(localRef, id, layout);
    SplitsAt(repo, tag);
    if layout == SingleRepository { SingleTagIs(localRef, id); }
  }

  lemma SplitsAt(repo: string, tag: string)
    requires ':' !in tag
    ensures SplitAtLastColon(repo + ":" + tag) == Some((repo, tag))
  {
    LastIndexIs(repo, ':', tag);
    var ref := repo + ":" + tag;
    assert ref[..|repo|] == repo && ref[|repo| + 1..] == tag;
  }

  lemma {:induction false} RStripBehind(head: string, c: char, tail: string)
    requires !IsSpace(c)
    ensures RStrip(head + [c] + tail) == head + [c] + RStrip(tail)
  {
    var s := head + [c] + tail;
    if tail == "" {
      assert s == head + [c];
    } else {
      assert s[|s| - 1] == tail[|tail| - 1];
      if IsSpace(tail[|tail| - 1]) {
        assert s[..|s| - 1] == head + [c] + tail[..|tail| - 1];
        RStripBehind(head, c, tail[..|tail| - 1]);
      }
    }
  }

  lemma StripOfRef(repo: string, tag: string)
    requires repo != "" && !IsSpace(repo[0])
    ensures Strip(repo + ":" + tag) == repo + ":" + RStrip(tag)
  {
    RStripBehind(repo, ':', tag);
    assert (repo + ":" + tag)[0] == repo[0];
  }

  lemma SplitOfPlain(repo: string, tag: string)
    requires repo != "" && !IsSpace(repo[0]) && ':' !in tag && '/' !in tag
    ensures SplitRepositoryTag(repo + ":" + tag) == (repo, Some(tag)) <==> tag != "" && !IsSpace(tag[|tag| - 1])
  {
    StripOfRef(repo, tag);
    RStripPrefix(tag);
    ColonBehindSlash(repo, RStrip(tag));
    SplitsAt(repo, RStrip(tag));
  }

  lemma ColonBehindSlash(repo: string, rest: string)
    requires ':' !in rest && '/' !in rest
    ensures LastIndexOf(repo + ":" + rest, '/') < |repo| == LastIndexOf(repo + ":" + rest, ':')
  {
    LastIndexIs(repo, ':', rest);
    NoneIn(repo + ":", rest, '/');
    assert (repo + ":" + rest)[|repo|] == ':';
    LastIndexBefore(repo + ":" + rest, '/', |repo|);
  }

  lemma NoneIn(head: string, tail: string, c: char)
    requires c !in tail
    ensures forall k :: |head| <= k < |head + tail| ==> (head + tail)[k] != c
  {
    forall k | |head| <= k < |head + tail| ensures (head + tail)[k] != c {
      assert (head + tail)[k] == tail[k - |head|];
    }
  }

  /** The split with a port in mind gives the same two parts back exactly when the tag is not
      empty and does not end in white space: always in the single repository layout. */
  lemma SplitInvertsPublishIff(localRef: string, id: string, prefix: string, requested: string)
    requires Base(prefix) != "" && ResolveLayout(Base(prefix), requested).Some?
    ensures var layout := ResolveLayout(Base(prefix), requested).value;
            var raw := LocalTag(localRef);
            SplitRepositoryTag(PublishedRef(localRef, id, prefix, requested).value)
              == (Repository(Base(prefix), id, layout), Some(PublishedTag(localRef, id, layout)))
            <==> layout == SingleRepository || (raw != "" && !IsSpace(raw[|raw| - 1]))
  {
    var layout := ResolveLayout(Base(prefix), requested).value;
    var tag := PublishedTag(localRef, id, layout);
    RepositoryStartsPlain(prefix, id, layout);
    PublishedTagIsPlain(localRef, id, layout);
    SplitOfPlain(Repository(Base(prefix), id, layout), tag);
    if layout == SingleRepository { SingleTagEndsPlain(localRef, id); }
  }

  lemma SingleTagEndsPlain(localRef: string, id: string)
    ensures var tag := PublishedTag(localRef, id, SingleRepository); tag != "" && !IsSpace(tag[|tag| - 1])
  {
    SingleTagIs(localRef, id);
    var tag := PublishedTag(localRef, id, SingleRepository);
    assert IsTagChar(tag[|tag| - 1]);
  }

  lemma RepositoryStartsPlain(prefix: string, id: string, layout: Layout)
    requires Base(prefix) != ""
    ensures var repo := Repository(Base(prefix), id, layout); repo != "" && !IsSpace(repo[0])
  {
    BaseStartsPlain(prefix);
  }

  lemma RefStartsWithBase(base: string, id: string, layout: Layout, rest: string)
    ensures var ref := Repository(base, id, layout) + ":" + rest; base + ":" <= ref || base + "/" <= ref
  {
    if layout == RepositoryPerTemplate {
      var name := SanitizeForTag(id);
      assert base + "/" + name + ":" + rest == (base + "/") + (name + ":" + rest);
    }
  }

  lemma OursByPrefix(imageRef: string, prefix: string, ref: string)
    requires Base(prefix) != "" && Strip(imageRef) == ref
    requires Base(prefix) + ":" <= ref || Base(prefix) + "/" <= ref
    ensures IsOurs(imageRef, prefix)
  {
  }

  /** The registry recognises every reference published under its prefix. */
  lemma PublishedIsOurs(localRef: string, id: string, prefix: string, requested: string)
    requires Base(prefix) != "" && ResolveLayout(Base(prefix), requested).Some?
    ensures IsOurs(PublishedRef(localRef, id, prefix, requested).value, prefix)
  {
    var layout := ResolveLayout(Base(prefix), requested).value;
    var repo, tag := Repository(Base(prefix), id, layout), PublishedTag(localRef, id, layout);
    RepositoryStartsPlain(prefix, id, layout);
    StripOfRef(repo, tag);
    RefStartsWithBase(Base(prefix), id, layout, RStrip(tag));
    OursByPrefix(repo + ":" + tag, prefix, repo + ":" + RStrip(tag));
  }

  lemma LocalTagAfterColon(name: string, tag: string)
    requires '/' !in name && ':' !in tag && '/' !in tag
    ensures LocalTag(name + ":" + tag) == tag
  {
    var ref := name + ":" + tag;
    SplitsAt(name, tag);
    assert '/' !in ref;
    assert ref[0..] == ref && ref[|name|] == ':';
  }

  /** With a repository per template the tag is the local one as it stands, and a local tag the
      registry does not take stays one; the single repository layout mends it. */
  lemma RawTagCanBeInvalid(id: string)
    ensures LocalTag("img" + ":" + "-1") == PublishedTag("img" + ":" + "-1", id, RepositoryPerTemplate) == "-1"
    ensures !ValidTag("-1") && ValidTag(PublishedTag("img" + ":" + "-1", id, SingleRepository))
  {
    SingleTagIs("img" + ":" + "-1", id);
    LocalTagAfterColon("img", "-1");
  }

  // ----- What cleaning does to the texts that need it -----

  /** A longest run of characters that are not allowed becomes one dash, and what is around it is
      cleaned by itself. */
  lemma {:induction false} RunBecomesDash(a: string, run: string, b: string, allowed: char -> bool)
    requires All(a, allowed) && run != "" && (forall k :: 0 <= k < |run| ==> !allowed(run[k]))
    requires b != "" ==> allowed(b[0])
    ensures Squash(a + run + b, allowed) == a + "-" + Squash(b, allowed)
    decreases |a|, |run|
  {
    var s := a + run + b;
    if a != "" {
      assert s[1..] == a[1..] + run + b;
      assert forall k :: 0 <= k < |a| - 1 ==> allowed(a[1..][k]) by {
        forall k | 0 <= k < |a| - 1 ensures allowed(a[1..][k]) { assert a[1..][k] == a[k + 1]; }
      }
      RunBecomesDash(a[1..], run, b, allowed);
      assert [a[0]] + (a[1..] + "-" + Squash(b, allowed)) == a + "-" + Squash(b, allowed);
    } else if |run| == 1 {
      assert s[0] == run[0] && s[1..] == b;
    } else {
      assert s[0] == run[0] && s[1] == run[1] && s[1..] == "" + run[1..] + b;
      RunBecomesDash("", run[1..], b, allowed);
    }
  }

  /** Capitals are lowered, and a longer identifier is cut: of one that is clean otherwise, nothing
      else changes. */
  lemma CleanNameIsLowered(id: string)
    requires id != "" && All(id, IsTagChar) && id[0] != '-' && id[|id| - 1] != '-'
    ensures SanitizeForTag(id) == if |id| <= 48 then Lower(id) else Lower(id)[..48]
  {
    TagCharsAreNoSpace(id);
    LoweredTagChars(id);
    CleanIsWhole(Lower(id));
  }

  lemma LoweredTagChars(id: string)
    requires All(id, IsTagChar)
    ensures All(Lower(id), IsNameChar)
  {
    forall k | 0 <= k < |id| ensures IsNameChar(Lower(id)[k]) { assert IsTagChar(id[k]); }
  }

  lemma CleanIsWhole(low: string)
    requires low != "" && All(low, IsNameChar) && low[0] != '-' && low[|low| - 1] != '-'
    ensures Trim(Squash(low, IsNameChar), {'-'}) == low
  {
    SquashMeaning(low, IsNameChar);
    var i, j := TrimMeaning(low, {'-'});
    assert i == 0 && j == |low| && low[0..|low|] == low;
  }

  /** With nothing left to keep there is a name all the same. */
  lemma NothingLeftIsNamed(s: string, limit: nat)
    requires limit >= 6 && forall k :: 0 <= k < |s| ==> s[k] in ENDS
    ensures SanitizeComponent(s, limit) == "latest"
    ensures (forall k :: 0 <= k < |s| ==> s[k] == '-') ==> SanitizeForTag(s) == "tpl"
  {
    assert All(s, IsTagChar) by {
      forall k | 0 <= k < |s| ensures IsTagChar(s[k]) { assert s[k] in ENDS; }
    }
    TagCharsAreNoSpace(s);
    SquashMeaning(s, IsTagChar);
    var i, j := TrimMeaning(s, ENDS);
    assert s[i..j] == "";
    if forall k :: 0 <= k < |s| ==> s[k] == '-' {
      assert Lower(s) == s;
      assert All(s, IsNameChar);
      SquashMeaning(s, IsNameChar);
      var m, n := TrimMeaning(s, {'-'});
      assert s[m..n] == "";
    }
  }

  // ----- Which layout -----

  /** The layouts go by their names in any case, with dashes or underscores. */
  lemma LayoutByName(prefix: string, requested: string, name: string)
    requires requested != "" && Trimmed(requested) && |requested| == |name|
    requires forall k :: 0 <= k < |name| ==>
               name[k] == if requested[k] == '-' then '_' else LowerChar(requested[k])
    ensures name in {"single", "single_repo", "single_repository"} ==>
              ResolveLayout(prefix, requested) == Some(SingleRepository)
    ensures name in {"per_template", "repository_per_template", "subrepository"} ==>
              ResolveLayout(prefix, requested) == Some(RepositoryPerTemplate)
    ensures ResolveLayout(prefix, requested) == None <==>
              name !in {"single", "single_repo", "single_repository", "per_template", "repository_per_template",
                        "subrepository", "auto"}
    ensures name == "auto" ==> ResolveLayout(prefix, requested) == ResolveLayout(prefix, "")
  {
    StripIsTrimmed(requested);
    assert Dashless(Lower(requested)) == name;
    AutoIsAuto();
  }

  lemma AutoIsAuto()
    ensures Dashless(Lower(Strip("auto"))) == "auto"
  {
    StripIsTrimmed("auto");
    assert Lower("auto") == "auto" && Dashless("auto") == "auto";
  }

  /** Left open, it is the single repository exactly for the registries of one provider. */
  lemma AutoLayoutIff(host: string, path: string)
    requires '/' !in host && '.' in host && Trimmed(host) && Trimmed(host + "/" + path)
    ensures ResolveLayout(host + "/" + path, "") ==
              if Lower(host) == "public.ecr.aws" || Contains(Lower(host), ".dkr.ecr.")
                  || EndsWith(Lower(host), ".amazonaws.com")
              then Some(SingleRepository) else Some(RepositoryPerTemplate)
  {
    var prefix := host + "/" + path;
    AutoIsAuto();
    StripIsTrimmed(prefix);
    StripIsTrimmed(host);
    IndexIs(host, '/', path);
    assert prefix[..|host|] == host;
    assert Server(prefix) == host;
    FindMeaning(Lower(host), ".dkr.ecr.");
  }

  // ----- The local tag -----

  /** The tag of a reference is what follows the colon of its last component; a port is none. */
  lemma LocalTagIs(dir: string, name: string, tag: string)
    requires '/' !in name && ':' !in name && ':' !in tag && '/' !in tag
    ensures LocalTag(dir + "/" + name + ":" + tag) == tag && LocalTag(dir + "/" + name) == "latest"
  {
    var rest := name + ":" + tag;
    Assoc(dir + "/", name, ":" + tag);
    assert dir + "/" + name + ":" + tag == dir + "/" + rest;
    LastIndexIs(dir, '/', rest);
    LastIndexIs(dir, '/', name);
    DropFront(dir + "/", rest);
    DropFront(dir + "/", name);
    assert rest[|name|] == ':';
    SplitsAt(dir + "/" + name, tag);
  }

  // ----- Prefixes -----

  lemma {:induction false} SlashesGo(p: string, n: nat)
    requires p != "" && p[|p| - 1] != '/'
    ensures RTrim(p + seq(n, _ => '/'), {'/'}) == p
  {
    var s := p + seq(n, _ => '/');
    if n == 0 {
      assert s == p;
    } else {
      assert s[|s| - 1] == '/' && s[..|s| - 1] == p + seq(n - 1, _ => '/');
      SlashesGo(p, n - 1);
    }
  }

  /** Slashes behind the prefix do not count. */
  lemma BaseIs(p: string, n: nat)
    requires p != "" && Trimmed(p) && p[|p| - 1] != '/'
    ensures Base(p + seq(n, _ => '/')) == p
  {
    var s := p + seq(n, _ => '/');
    assert s[0] == p[0] && s[|s| - 1] == if n == 0 then p[|p| - 1] else '/';
    StripIsTrimmed(s);
    SlashesGo(p, n);
  }

  /** A reference is the registry's exactly when it is the base, or goes on behind it with a path or a
      tag. */
  lemma OursIff(imageRef: string, prefix: string)
    requires Base(prefix) != ""
    ensures IsOurs(imageRef, prefix) <==>
              exists rest: string :: Strip(imageRef) == Base(prefix) + rest && (rest == "" || rest[0] in {'/', ':'})
  {
    var ref, base := Strip(imageRef), Base(prefix);
    if IsOurs(imageRef, prefix) {
      var rest := ref[|base|..];
      assert base + "/" <= ref ==> (base + "/")[..|base|] == base && ref[|base|] == (base + "/")[|base|];
      assert base + ":" <= ref ==> (base + ":")[..|base|] == base && ref[|base|] == (base + ":")[|base|];
      assert ref == base + rest;
    }
    if rest: string :| ref == base + rest && (rest == "" || rest[0] in {'/', ':'}) {
      if rest == "" {
        assert ref == base;
      } else {
        assert ref == (base + [rest[0]]) + rest[1..];
        assert [rest[0]] == if rest[0] == '/' then "/" else ":";
      }
    }
  }

  /** A reference without a tag is all repository, a port included. */
  lemma SplitOfUntagged(dir: string, name: string)
    requires '/' !in name && ':' !in name && Trimmed(dir + "/" + name)
    ensures SplitRepositoryTag(dir + "/" + name) == (dir + "/" + name, None)
  {
    var ref := dir + "/" + name;
    StripIsTrimmed(ref);
    LastIndexIs(dir, '/', name);
    NoneIn(dir + "/", name, ':');
    assert ref[|dir|] == '/';
    LastIndexBefore(ref, ':', |dir|);
  }

  /** The characters of a tag. */
  lemma TagCharacters(c: char)
    ensures IsTagChar(c) <==> 'A' <= c <= 'Z' || 'a' <= c <= 'z' || '0' <= c <= '9' || c == '_' || c == '.' || c == '-'
    ensures IsNameChar(c) <==> IsTagChar(c) && !('A' <= c <= 'Z')
    ensures c in ENDS <==> c == '.' || c == '-'
  {
  }

}
