/**
 `_relative_path` and the three places that silently depend on what it returns: the component test
 of `SuppliedFile.open_beneath`, the containment test of `Installer.executable`, and the path
 comparison of `_verify_asset_directory`. Paths are POSIX paths.
 */
module RelativePath {
  import opened Common

  // ---------------------------------------------------------------------------------------
  // Components

  function Split(s: string): (parts: seq<string>)
    ensures parts != []
  {
    if s == "" then [""]
    else
      var rest := Split(s[1..]);
      if s[0] == '/' then [""] + rest else [[s[0]] + rest[0]] + rest[1..]
  }

  function Join(parts: seq<string>): string {
    if parts == [] then ""
    else if |parts| == 1 then parts[0]
    else parts[0] + "/" + Join(parts[1..])
  }

  predicate IsComponent(p: string) {
    '/' !in p
  }

  lemma {:induction false} SplitGivesComponents(s: string)
    ensures forall p | p in Split(s) :: IsComponent(p)
  {
    if s != "" {
      SplitGivesComponents(s[1..]);
      var rest := Split(s[1..]);
      assert rest[0] in rest;
      assert forall p | p in rest[1..] :: p in rest;
    }
  }

  lemma {:induction false} JoinSplit(s: string)
    ensures Join(Split(s)) == s
  {
    if s != "" {
      JoinSplit(s[1..]);
      var rest, parts := Split(s[1..]), Split(s);
      if s[0] == '/' {
        assert parts[1..] == rest;
      } else {
        assert parts[1..] == rest[1..];
      }
    }
  }

  lemma {:induction false} SplitComponent(p: string)
    requires IsComponent(p)
    ensures Split(p) == [p]
  {
    if p != "" {
      assert forall c | c in p[1..] :: c in p;
      SplitComponent(p[1..]);
      assert p[0] in p && [p[0]] + p[1..] == p;
    }
  }

  lemma {:induction false} SplitCons(p: string, s: string)
    requires IsComponent(p)
    ensures Split(p + "/" + s) == [p] + Split(s)
  {
    if p == "" {
      assert p + "/" + s == "/" + s && ("/" + s)[1..] == s;
    } else {
      assert p[0] in p && forall c | c in p[1..] :: c in p;
      SplitCons(p[1..], s);
      var rest := Split(p[1..] + "/" + s);
      assert (p + "/" + s)[1..] == p[1..] + "/" + s;
      assert rest[0] == p[1..] && rest[1..] == Split(s);
      assert [p[0]] + p[1..] == p;
    }
  }

  lemma {:induction false} SplitJoin(parts: seq<string>)
    requires parts != [] && forall p | p in parts :: IsComponent(p)
    ensures Split(Join(parts)) == parts
  {
    if |parts| == 1 {
      SplitComponent(parts[0]);
    } else {
      SplitJoin(parts[1..]);
      SplitCons(parts[0], Join(parts[1..]));
    }
  }

  // ---------------------------------------------------------------------------------------
  // Normalisation

  /** One component of `normpath` on a relative path: skipped, pushed, or popping its predecessor. */
  function Push(stack: seq<string>, p: string): seq<string> {
    if p == "" || p == "." then stack
    else if p != ".." || stack == [] || stack[|stack| - 1] == ".." then stack + [p]
    else stack[..|stack| - 1]
  }

  function Norm(parts: seq<string>, stack: seq<string>): seq<string> {
    if parts == [] then stack else Norm(parts[1..], Push(stack, parts[0]))
  }

  /** `os.path.normpath` of a relative path. */
  function Normpath(s: string): string {
    var n := Join(Norm(Split(s), []));
    if n == "" then "." else n
  }

  /** `_relative_path`; None stands for the CatalogError. */
  function RelativePath(v: string): Option<string> {
    if v == "" || '\0' in v || v[0] == '/' then None
    else
      var n := Normpath(v);
      if n == "." || n == ".." || "../" <= n then None else Some(n)
  }

  /** A component that names an entry of a directory. */
  predicate IsName(p: string) {
    IsComponent(p) && p != "" && p != "." && p != ".."
  }

  predicate AllNames(parts: seq<string>) {
    forall p | p in parts :: IsName(p)
  }

  /** Names after any leading "..". */
  predicate Reduced(stack: seq<string>) {
    forall i | 0 <= i < |stack| ::
      IsName(stack[i]) || (stack[i] == ".." && (i > 0 ==> stack[i - 1] == ".."))
  }

  lemma {:induction false} NormReduces(parts: seq<string>, stack: seq<string>)
    requires Reduced(stack) && forall p | p in parts :: IsComponent(p)
    ensures Reduced(Norm(parts, stack))
  {
    if parts != [] {
      assert Reduced(Push(stack, parts[0]));
      assert forall p | p in parts[1..] :: p in parts;
      NormReduces(parts[1..], Push(stack, parts[0]));
    }
  }

  /** Without a leading ".." there is none. */
  lemma {:induction false} ReducedNames(stack: seq<string>)
    requires Reduced(stack) && (stack != [] ==> stack[0] != "..")
    ensures AllNames(stack)
  {
    if stack != [] {
      ReducedNames(stack[..|stack| - 1]);
      assert forall p | p in stack[..|stack| - 1] :: p in stack;
      var last := |stack| - 1;
      if last > 0 {
        assert stack[last - 1] == stack[..last][last - 1];
        assert stack[last - 1] in stack[..last];
      }
      assert stack == stack[..last] + [stack[last]];
    }
  }

  lemma {:induction false} NormOfNames(parts: seq<string>, stack: seq<string>)
    requires AllNames(parts)
    ensures Norm(parts, stack) == stack + parts
  {
    if parts == [] {
      assert stack + [] == stack;
    } else {
      assert parts[0] in parts && forall p | p in parts[1..] :: p in parts;
      NormOfNames(parts[1..], stack + [parts[0]]);
      assert stack + [parts[0]] + parts[1..] == stack + parts;
    }
  }

  /** The components that normalisation leaves. */
  function Components(v: string): seq<string> {
    Norm(Split(v), [])
  }

  lemma DotsSplit()
    ensures Split(".") == ["."] && Split("..") == [".."] && Split("") == [""]
  {
    SplitComponent(".");
    SplitComponent("..");
  }

  lemma ClimbingSplits(n: string)
    requires "../" <= n
    ensures Split(n) == [".."] + Split(n[3..])
  {
    assert n == ".." + "/" + n[3..];
    SplitCons("..", n[3..]);
  }

  lemma ClimbingJoins(parts: seq<string>)
    requires |parts| > 1 && parts[0] == ".."
    ensures "../" <= Join(parts)
  {
  }

  lemma JoinedStart(parts: seq<string>)
    requires parts != [] && forall p | p in parts :: IsComponent(p)
    requires parts[0] != "" && parts[0] != "."
    ensures var n := Join(parts);
            n != "" && n != "." && (n == ".." || "../" <= n <==> parts[0] == "..")
  {
    hide Split, Join;
    SplitJoin(parts);
    DotsSplit();
    var n := Join(parts);
    if "../" <= n {
      ClimbingSplits(n);
    } else if parts[0] == ".." {
      if |parts| > 1 {
        ClimbingJoins(parts);
      } else {
        assert parts == [".."];
        JoinSplit("..");
      }
    }
  }

  lemma ComponentsAreReduced(v: string)
    ensures Reduced(Components(v)) && forall p | p in Components(v) :: IsComponent(p) && p != ""
  {
    SplitGivesComponents(v);
    NormReduces(Split(v), []);
  }

  /** Exactly which values are accepted, and as what: a path that climbs out or names nothing is refused. */
  lemma AcceptedExactly(v: string)
    ensures RelativePath(v).Some? <==>
              v != "" && '\0' !in v && v[0] != '/' && Components(v) != [] && Components(v)[0] != ".."
    ensures RelativePath(v).Some? ==>
              RelativePath(v).value == Join(Components(v)) && AllNames(Components(v))
  {
    ComponentsAreReduced(v);
    var c := Components(v);
    if c != [] {
      assert c[0] in c && c[0] != ".";
      JoinedStart(c);
      if c[0] != ".." {
        ReducedNames(c);
      }
    }
  }

  /** A path in the form that `_relative_path` returns. */
  predicate Plain(s: string) {
    s != "" && '\0' !in s && AllNames(Split(s))
  }

  lemma {:induction false} NulInJoin(parts: seq<string>)
    requires '\0' in Join(parts)
    ensures exists p :: p in parts && '\0' in p
  {
    if |parts| > 1 {
      if '\0' in Join(parts[1..]) {
        NulInJoin(parts[1..]);
      } else {
        assert '\0' in parts[0] && parts[0] in parts;
      }
    } else {
      assert parts[0] in parts;
    }
  }

  lemma {:induction false} NulInSplit(s: string)
    requires '\0' !in s
    ensures forall p | p in Split(s) :: '\0' !in p
  {
    if s != "" {
      NulInSplit(s[1..]);
      var rest := Split(s[1..]);
      assert rest[0] in rest && forall p | p in rest[1..] :: p in rest;
    }
  }

  lemma {:induction false} NormAddsNothing(parts: seq<string>, stack: seq<string>)
    ensures forall p | p in Norm(parts, stack) :: p in parts || p in stack
  {
    if parts != [] {
      NormAddsNothing(parts[1..], Push(stack, parts[0]));
      assert forall p | p in parts[1..] :: p in parts;
    }
  }

  /** What is returned is plain: no empty, dot or dot-dot component. */
  lemma AcceptedIsPlain(v: string)
    requires RelativePath(v).Some?
    ensures Plain(RelativePath(v).value)
    ensures Split(RelativePath(v).value) == Components(v)
  {
    AcceptedExactly(v);
    var c := Components(v);
    SplitJoin(c);
    assert c[0] in c;
    JoinedStart(c);
    if '\0' in Join(c) {
      NulInJoin(c);
      var p :| p in c && '\0' in p;
      NormAddsNothing(Split(v), []);
      NulInSplit(v);
    }
  }

  lemma NoLeadingSlash(s: string)
    requires s != "" && "" !in Split(s)
    ensures s[0] != '/'
  {
  }

  /** Plain paths are exactly the fixed points. */
  lemma PlainIsFixed(s: string)
    ensures Plain(s) <==> RelativePath(s) == Some(s)
  {
    AcceptedExactly(s);
    JoinSplit(s);
    if Plain(s) {
      NormOfNames(Split(s), []);
      assert [] + Split(s) == Split(s);
      assert Split(s)[0] in Split(s);
      NoLeadingSlash(s);
    }
    if RelativePath(s).Some? {
      AcceptedIsPlain(s);
    }
  }

  // ---------------------------------------------------------------------------------------
  // Who depends on it

  /** The test of `open_beneath` before anything is opened. */
  predicate OpensBeneath(relative: string) {
    !("/" <= relative) && "" !in Split(relative) && ".." !in Split(relative)
  }

  lemma PlainOpensBeneath(s: string)
    requires Plain(s)
    ensures OpensBeneath(s)
  {
    NoLeadingSlash(s);
  }

  /** `normpath` of the components of an absolute path: ".." at the root is dropped. */
  function PushAbsolute(stack: seq<string>, p: string): seq<string> {
    if p == "" || p == "." then stack
    else if p != ".." then stack + [p]
    else if stack == [] then []
    else stack[..|stack| - 1]
  }

  function NormAbsolute(parts: seq<string>, stack: seq<string>): seq<string> {
    if parts == [] then stack else NormAbsolute(parts[1..], PushAbsolute(stack, parts[0]))
  }

  lemma {:induction false} NormAbsoluteOfNames(parts: seq<string>, stack: seq<string>)
    requires AllNames(parts)
    ensures NormAbsolute(parts, stack) == stack + parts
  {
    if parts == [] {
      assert stack + [] == stack;
    } else {
      assert parts[0] in parts && forall p | p in parts[1..] :: p in parts;
      NormAbsoluteOfNames(parts[1..], stack + [parts[0]]);
      assert stack + [parts[0]] + parts[1..] == stack + parts;
    }
  }

  /** `abspath(join(base, name))`, where `base` is given by its components. */
  function Under(base: seq<string>, name: string): seq<string> {
    NormAbsolute(if "/" <= name then Split(name) else base + Split(name), [])
  }

  /** `Installer.executable`: the components of the executable, or None for the refusal. */
  function Executable(selected: seq<string>, binary: string): Option<seq<string>> {
    var target := Under(selected, binary);
    if target != selected && selected <= target then Some(target) else None
  }

  /** The binary of a parsed entry is always strictly inside the selected directory, at its own path. */
  lemma ParsedBinaryIsInside(selected: seq<string>, v: string)
    requires AllNames(selected) && RelativePath(v).Some?
    ensures Executable(selected, RelativePath(v).value) == Some(selected + Components(v))
  {
    AcceptedIsPlain(v);
    var b := RelativePath(v).value;
    PlainOpensBeneath(b);
    var parts := selected + Split(b);
    assert AllNames(parts);
    NormAbsoluteOfNames(parts, []);
    assert [] + parts == parts;
    assert Split(b)[0] in Split(b);
  }

  /** `Installer.destination`: a child of the content root, or None for the refusal. */
  function Destination(root: seq<string>, id: string): Option<seq<string>> {
    var target := Under(root, id);
    if target != root && target != [] && target[..|target| - 1] == root then Some(target) else None
  }

  predicate IdStart(c: char) {
    'a' <= c <= 'z' || '0' <= c <= '9'
  }

  /** `_ID`. */
  predicate ValidId(id: string) {
    1 <= |id| <= 64 && IdStart(id[0])
    && forall i | 0 <= i < |id| :: IdStart(id[i]) || id[i] == '.' || id[i] == '_' || id[i] == '-'
  }

  /** The install id of a parsed entry is always a safe child of the content root. */
  lemma ValidIdIsAChild(root: seq<string>, id: string)
    requires AllNames(root) && ValidId(id)
    ensures Destination(root, id) == Some(root + [id]) && AllNames(root + [id])
  {
    assert IsComponent(id) by {
      forall i | 0 <= i < |id| ensures id[i] != '/' {
        assert IdStart(id[i]) || id[i] == '.' || id[i] == '_' || id[i] == '-';
      }
    }
    SplitComponent(id);
    assert IsName(id) && AllNames(root + [id]);
    NormAbsoluteOfNames(root + [id], []);
    assert [] + (root + [id]) == root + [id];
  }
}
