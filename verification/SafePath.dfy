/** Lexical path checks of archive extraction (internal/safepath/safepath.go), for
    Unix paths.  The code compares strings; the specification compares lists of
    path components. */
module SafePath {

  // ---------- the path functions of the standard library, by components ----------

  /** strings.Split(s, "/"). */
  function Split(s: string): (parts: seq<string>)
    ensures |parts| >= 1
  {
    if s == "" then [""]
    else
      var rest := Split(s[1..]);
      if s[0] == '/' then [""] + rest else [[s[0]] + rest[0]] + rest[1..]
  }

  predicate HasPrefix(s: string, prefix: string) {
    prefix <= s
  }

  predicate IsAbs(path: string) {
    HasPrefix(path, "/")
  }

  /** One component of a path that is walked from `stack`, under a root. */
  function Walk(stack: seq<string>, part: string): seq<string> {
    if part == "" || part == "." then stack
    else if part == ".." then (if stack == [] then [] else stack[..|stack| - 1])
    else stack + [part]
  }

  function WalkAll(stack: seq<string>, parts: seq<string>): seq<string>
    decreases |parts|
  {
    if parts == [] then stack else WalkAll(Walk(stack, parts[0]), parts[1..])
  }

  /** Each component after a slash. */
  function Slashed(parts: seq<string>): string {
    if parts == [] then "" else "/" + parts[0] + Slashed(parts[1..])
  }

  /** The clean absolute path with these components. */
  function Render(parts: seq<string>): string {
    if parts == [] then "/" else Slashed(parts)
  }

  /** filepath.Clean of an absolute path. */
  function Clean(path: string): string
    requires IsAbs(path)
  {
    Render(WalkAll([], Split(path)))
  }

  /** filepath.Join of an absolute directory and a relative element. */
  function Join(dir: string, element: string): string
    requires IsAbs(dir)
  {
    Clean(dir + "/" + element)
  }

  /** filepath.Dir of an absolute path: everything up to the last slash, cleaned. */
  function Dir(path: string): string
    requires IsAbs(path)
  {
    Clean(UpToLastSlash(path))
  }

  function UpToLastSlash(path: string): (r: string)
    requires IsAbs(path)
    ensures IsAbs(r)
  {
    if path[|path| - 1] == '/' || |path| == 1 then path else UpToLastSlash(path[..|path| - 1])
  }

  predicate NoSlash(part: string) {
    forall i | 0 <= i < |part| :: part[i] != '/'
  }

  predicate Proper(part: string) {
    NoSlash(part) && part != "" && part != "." && part != ".."
  }

  predicate AllProper(parts: seq<string>) {
    forall i | 0 <= i < |parts| :: Proper(parts[i])
  }

  // ---------- splitting and rendering ----------

  lemma {:induction false} SplitPart(part: string)
    requires NoSlash(part)
    ensures Split(part) == [part]
  {
    if part != "" {
      SplitPart(part[1..]);
      assert [part[0]] + part[1..] == part;
    }
  }

  /** How a character in front changes the parts. */
  function PutInFront(c: char, rest: seq<string>): seq<string>
    requires |rest| >= 1
  {
    if c == '/' then [""] + rest else [[c] + rest[0]] + rest[1..]
  }

  lemma PutInFrontOfSum(c: char, a: seq<string>, b: seq<string>)
    requires |a| >= 1
    ensures PutInFront(c, a + b) == PutInFront(c, a) + b
  {
  }

  lemma {:induction false} SplitAtSlash(a: string, b: string)
    ensures Split(a + "/" + b) == Split(a) + Split(b)
  {
    var s := a + "/" + b;
    if a == "" {
      assert s[1..] == b;
    } else {
      SplitAtSlash(a[1..], b);
      assert s[1..] == a[1..] + "/" + b;
      PutInFrontOfSum(a[0], Split(a[1..]), Split(b));
    }
  }

  lemma {:induction false} SplitFirst(part: string, t: string)
    requires NoSlash(part) && (t == "" || IsAbs(t))
    ensures Split(part + t) == [part] + Split(t)[1..]
  {
    if part == "" {
      assert part + t == t;
      assert Split(t)[0] == "";
    } else {
      SplitFirst(part[1..], t);
      assert (part + t)[1..] == part[1..] + t;
      assert [part[0]] + part[1..] == part;
    }
  }

  lemma SplitOne(part: string, tail: string, rest: seq<string>)
    requires NoSlash(part) && (tail == "" || IsAbs(tail)) && Split(tail) == [""] + rest
    ensures Split("/" + part + tail) == [""] + ([part] + rest)
  {
    SplitFirst(part, tail);
    assert ([""] + rest)[1..] == rest;
    SplitAtSlash("", part + tail);
    assert "/" + part + tail == "" + "/" + (part + tail);
    assert Split("") == [""];
  }

  lemma {:induction false} SplitSlashed(parts: seq<string>)
    requires AllProper(parts)
    ensures Split(Slashed(parts)) == [""] + parts
  {
    if parts == [] {
      assert [""] + parts == [""];
    } else {
      SplitSlashed(parts[1..]);
      SplitOne(parts[0], Slashed(parts[1..]), parts[1..]);
      assert [parts[0]] + parts[1..] == parts;
    }
  }

  lemma {:induction false} SplitHasNoSlash(s: string)
    ensures forall i | 0 <= i < |Split(s)| :: NoSlash(Split(s)[i])
  {
    if s != "" {
      SplitHasNoSlash(s[1..]);
    }
  }

  lemma {:induction false} WalkAppend(stack: seq<string>, a: seq<string>, b: seq<string>)
    ensures WalkAll(stack, a + b) == WalkAll(WalkAll(stack, a), b)
    decreases |a|
  {
    if a == [] {
      assert a + b == b;
    } else {
      assert (a + b)[1..] == a[1..] + b;
      WalkAppend(Walk(stack, a[0]), a[1..], b);
    }
  }

  lemma {:induction false} WalkProper(stack: seq<string>, parts: seq<string>)
    requires AllProper(parts)
    ensures WalkAll(stack, parts) == stack + parts
    decreases |parts|
  {
    if parts != [] {
      WalkProper(stack + [parts[0]], parts[1..]);
      assert stack + [parts[0]] + parts[1..] == stack + parts;
    } else {
      assert stack + parts == stack;
    }
  }

  lemma {:induction false} WalkKeepsProper(stack: seq<string>, parts: seq<string>)
    requires AllProper(stack) && forall i | 0 <= i < |parts| :: NoSlash(parts[i])
    ensures AllProper(WalkAll(stack, parts))
    decreases |parts|
  {
    if parts != [] {
      WalkKeepsProper(Walk(stack, parts[0]), parts[1..]);
    }
  }

  /** Joining walks the element's components from the directory's. */
  lemma JoinWalks(dir: seq<string>, element: string)
    requires AllProper(dir)
    ensures Join(Render(dir), element) == Render(WalkAll(dir, Split(element)))
    ensures AllProper(WalkAll(dir, Split(element)))
  {
    SplitHasNoSlash(element);
    WalkKeepsProper(dir, Split(element));
    SplitAtSlash(Render(dir), element);
    WalkAppend([], Split(Render(dir)), Split(element));
    if dir == [] {
      SplitAtSlash("", "");
      assert "" + "/" + "" == "/";
      assert WalkAll([], ["", ""]) == [];
    } else {
      SplitSlashed(dir);
      WalkAppend([], [""], dir);
      WalkProper([], dir);
      assert WalkAll([], [""]) == [];
      assert [] + dir == dir;
    }
  }

  // ---------- containment ----------

  /** isWithinDir. */
  predicate IsWithinDir(path: string, dir: string) {
    path == dir
    || (if dir == "/" then IsAbs(path)
        else if dir != "" && dir[|dir| - 1] == '/' then HasPrefix(path, dir)
        else HasPrefix(path, dir + "/"))
  }

  lemma ConsPrefix(c: char, s: string, d: char, t: string)
    ensures [c] + s <= [d] + t <==> c == d && s <= t
  {
    if [c] + s <= [d] + t {
      assert ([c] + s)[0] == ([d] + t)[0];
      assert ([c] + s)[1..] == s && ([d] + t)[1..] == t;
    }
  }

  /** Components without slashes can be compared up to the next slash. */
  lemma {:induction false} PrefixAtSlash(a: string, x: string, b: string, y: string)
    requires NoSlash(a) && NoSlash(b)
    requires IsAbs(x) && (y == "" || IsAbs(y))
    ensures a + x <= b + y <==> a == b && x <= y
    decreases |a|
  {
    if a == "" || b == "" {
      assert "" + x == x && "" + y == y;
      if a + x <= b + y {
        assert (a + x)[0] == (b + y)[0];
      }
    } else {
      PrefixAtSlash(a[1..], x, b[1..], y);
      ConsPrefix(a[0], a[1..] + x, b[0], b[1..] + y);
      assert a + x == [a[0]] + (a[1..] + x);
      assert b + y == [b[0]] + (b[1..] + y);
      assert a == [a[0]] + a[1..] && b == [b[0]] + b[1..];
    }
  }

  lemma {:induction false} SlashedPrefix(p: seq<string>, q: seq<string>)
    requires AllProper(p) && AllProper(q)
    ensures Slashed(q) + "/" <= Slashed(p) <==> q < p
    decreases |q|
  {
    if q != [] && p != [] {
      SlashedPrefix(p[1..], q[1..]);
      var x, y := Slashed(q[1..]) + "/", Slashed(p[1..]);
      PrefixAtSlash(q[0], x, p[0], y);
      assert Slashed(q) + "/" == "/" + (q[0] + x);
      assert Slashed(p) == "/" + (p[0] + y);
      assert q == [q[0]] + q[1..] && p == [p[0]] + p[1..];
      assert ("/" + (q[0] + x))[1..] == q[0] + x && ("/" + (p[0] + y))[1..] == p[0] + y;
    }
  }

  lemma {:induction false} SlashedEnd(parts: seq<string>)
    requires AllProper(parts) && parts != []
    ensures |Slashed(parts)| > 1 && Slashed(parts)[|Slashed(parts)| - 1] != '/'
  {
    var s := Slashed(parts);
    if parts[1..] == [] {
      assert Slashed(parts[1..]) == "";
      assert s == "/" + parts[0] + "";
    } else {
      SlashedEnd(parts[1..]);
    }
  }

  lemma {:induction false} SlashedInjective(p: seq<string>, q: seq<string>)
    requires AllProper(p) && AllProper(q) && Slashed(p) == Slashed(q)
    ensures p == q
  {
    SplitSlashed(p);
    SplitSlashed(q);
    assert ([""] + p)[1..] == p && ([""] + q)[1..] == q;
  }

  /** On clean absolute paths the string test is the component test. */
  lemma WithinIsComponentPrefix(p: seq<string>, q: seq<string>)
    requires AllProper(p) && AllProper(q)
    ensures IsWithinDir(Render(p), Render(q)) <==> q <= p
  {
    if q != [] {
      var path, dir := Render(p), Render(q);
      SlashedEnd(q);
      SlashedPrefix(p, q);
      assert IsWithinDir(path, dir) <==> path == dir || dir + "/" <= path;
      if p == [] {
        assert |dir + "/"| > |path|;
      } else {
        if path == dir {
          SlashedInjective(p, q);
        }
        assert q <= p <==> q == p || q < p;
      }
    }
  }

  // ---------- names ----------

  /** strings.ReplaceAll(path, "\\", "/"). */
  function Normalize(path: string): string {
    if path == "" then "" else [if path[0] == '\\' then '/' else path[0]] + Normalize(path[1..])
  }

  predicate ContainsNull(path: string) {
    '\0' in path
  }

  method ContainsTraversal(path: string) returns (found: bool)
    ensures found <==> ".." in Split(Normalize(path))
  {
    var parts := Split(Normalize(path));
    for i := 0 to |parts|
      invariant ".." !in parts[..i]
    {
      if parts[i] == ".." {
        return true;
      }
    }
    found := false;
  }

  /** A name that ValidatePath accepts. */
  predicate ValidName(path: string) {
    !ContainsNull(path) && !IsAbs(path) && ".." !in Split(Normalize(path))
  }

  predicate IsSeparator(c: char) {
    c == '/' || c == '\\'
  }

  /** Two dots at position `i`, with nothing but separators or the ends of the path
      around them. */
  predicate DotDotAt(path: string, i: int) {
    && 0 <= i && i + 2 <= |path| && path[i] == '.' && path[i + 1] == '.'
    && (i == 0 || IsSeparator(path[i - 1]))
    && (i + 2 == |path| || IsSeparator(path[i + 2]))
  }

  lemma {:induction false} NormalizeAt(path: string)
    ensures |Normalize(path)| == |path|
    ensures forall i | 0 <= i < |path| :: Normalize(path)[i] == if path[i] == '\\' then '/' else path[i]
  {
    if path != "" {
      NormalizeAt(path[1..]);
    }
  }

  /** The first part of a path ends at its first slash. */
  lemma {:induction false} FirstPart(s: string, part: string)
    requires NoSlash(part)
    ensures Split(s)[0] == part <==> part <= s && (|part| == |s| || s[|part|] == '/')
  {
    if s == "" {
      assert Split(s) == [""];
    } else if s[0] == '/' {
      assert Split(s)[0] == "";
    } else if part == "" {
      assert Split(s)[0] == [s[0]] + Split(s[1..])[0];
    } else {
      FirstPart(s[1..], part[1..]);
      assert Split(s)[0] == [s[0]] + Split(s[1..])[0];
      assert part == [part[0]] + part[1..] && s == [s[0]] + s[1..];
      ConsPrefix(part[0], part[1..], s[0], s[1..]);
      SameHead(s[0], Split(s[1..])[0], part[0], part[1..]);
    }
  }

  lemma SameHead(c: char, s: string, d: char, t: string)
    ensures [c] + s == [d] + t <==> c == d && s == t
  {
    if [c] + s == [d] + t {
      assert ([c] + s)[0] == ([d] + t)[0];
      assert ([c] + s)[1..] == s && ([d] + t)[1..] == t;
    }
  }

  /** The parts of a path after its first are what follows a slash. */
  lemma {:induction false} LaterPart(s: string, part: string)
    requires NoSlash(part)
    ensures part in Split(s)[1..] <==> exists i :: PartAfterSlash(s, part, i)
  {
    if s != "" {
      LaterPart(s[1..], part);
      FirstPart(s[1..], part);
      var rest := Split(s[1..]);
      assert rest == [rest[0]] + rest[1..];
      assert Split(s)[1..] == if s[0] == '/' then rest else rest[1..];
      if i :| PartAfterSlash(s[1..], part, i) {
        assert PartAfterSlash(s, part, i + 1);
      }
      if i :| PartAfterSlash(s, part, i) {
        assert i > 0 ==> PartAfterSlash(s[1..], part, i - 1);
        assert i == 0 ==> part <= s[1..] && (|part| == |s[1..]| || s[1..][|part|] == '/');
      }
      if s[0] == '/' && rest[0] == part {
        assert PartAfterSlash(s, part, 0);
      }
    }
  }

  predicate PartAfterSlash(s: string, part: string, i: int) {
    && 0 <= i < |s| && s[i] == '/'
    && part <= s[i + 1..] && (i + 1 + |part| == |s| || s[i + 1 + |part|] == '/')
  }

  lemma DotDotFirst(path: string)
    ensures Split(Normalize(path))[0] == ".." <==> DotDotAt(path, 0)
  {
    var s := Normalize(path);
    NormalizeAt(path);
    FirstPart(s, "..");
    if |s| >= 2 {
      assert ".." <= s <==> s[0] == '.' && s[1] == '.';
    }
  }

  lemma DotDotLater(path: string, i: nat)
    requires i < |path|
    ensures PartAfterSlash(Normalize(path), "..", i) <==> IsSeparator(path[i]) && DotDotAt(path, i + 1)
  {
    var s := Normalize(path);
    NormalizeAt(path);
    if i + 3 <= |s| {
      assert ".." <= s[i + 1..] <==> s[i + 1] == '.' && s[i + 2] == '.';
    }
  }

  /** A path has a ".." part exactly when two dots stand between separators of either
      kind. */
  lemma TraversalIsDotDot(path: string)
    ensures ".." in Split(Normalize(path)) <==> exists i :: DotDotAt(path, i)
  {
    var s := Normalize(path);
    NormalizeAt(path);
    DotDotFirst(path);
    LaterPart(s, "..");
    assert Split(s) == [Split(s)[0]] + Split(s)[1..];
    if i :| PartAfterSlash(s, "..", i) {
      DotDotLater(path, i);
    }
    if i :| DotDotAt(path, i) {
      if i > 0 {
        DotDotLater(path, i - 1);
      }
    }
  }

  method ValidatePath(path: string) returns (ok: bool)
    ensures ok <==> ValidName(path)
    ensures ok <==> '\0' !in path && !(|path| > 0 && path[0] == '/') && forall i :: !DotDotAt(path, i)
  {
    TraversalIsDotDot(path);
    if ContainsNull(path) || IsAbs(path) {
      return false;
    }
    var traversal := ContainsTraversal(path);
    ok := !traversal;
  }

  predicate NoBackslash(part: string) {
    forall i | 0 <= i < |part| :: part[i] != '\\'
  }

  lemma SplitFront(s: string)
    requires s != ""
    ensures Split(s) == PutInFront(s[0], Split(s[1..]))
    ensures Split(Normalize(s)) == PutInFront(if s[0] == '\\' then '/' else s[0], Split(Normalize(s[1..])))
  {
    assert Normalize(s)[1..] == Normalize(s[1..]);
  }

  /** A part between slashes survives the replacement of backslashes, unless it has
      one itself. */
  lemma {:induction false} NormalizeKeepsParts(s: string)
    ensures NoBackslash(Split(s)[0]) ==> Split(Normalize(s))[0] == Split(s)[0]
    ensures forall part <- Split(s)[1..] :: NoBackslash(part) ==> part in Split(Normalize(s))[1..]
  {
    if s != "" {
      var rest, nrest := Split(s[1..]), Split(Normalize(s[1..]));
      NormalizeKeepsParts(s[1..]);
      SplitFront(s);
      assert rest == [rest[0]] + rest[1..] && nrest == [nrest[0]] + nrest[1..];
      if s[0] == '/' {
        assert Split(s)[1..] == rest && Split(Normalize(s))[1..] == nrest;
      } else if s[0] == '\\' {
        assert Split(s)[1..] == rest[1..] && Split(Normalize(s))[1..] == nrest;
        assert Split(s)[0][0] == '\\';
      } else {
        assert Split(s)[1..] == rest[1..] && Split(Normalize(s))[1..] == nrest[1..];
        assert Split(s)[0] == [s[0]] + rest[0];
        assert Split(s)[0][1..] == rest[0];
      }
    }
  }

  lemma ValidNameHasNoDotDot(name: string)
    requires ValidName(name)
    ensures forall i | 0 <= i < |Split(name)| :: Split(name)[i] != ".."
  {
    NormalizeKeepsParts(name);
    assert NoBackslash("..");
    assert Split(name) == [Split(name)[0]] + Split(name)[1..];
  }

  /** What a name without ".." adds to a directory. */
  function NameParts(parts: seq<string>): seq<string> {
    if parts == [] then []
    else (if parts[0] == "" || parts[0] == "." then [] else [parts[0]]) + NameParts(parts[1..])
  }

  lemma {:induction false} WalkName(stack: seq<string>, parts: seq<string>)
    requires forall i | 0 <= i < |parts| :: parts[i] != ".."
    ensures WalkAll(stack, parts) == stack + NameParts(parts)
    decreases |parts|
  {
    if parts == [] {
      assert stack + [] == stack;
    } else {
      var rest := NameParts(parts[1..]);
      WalkName(Walk(stack, parts[0]), parts[1..]);
      if parts[0] == "" || parts[0] == "." {
        assert [] + rest == rest;
      } else {
        Reassociate(stack, parts[0], rest);
      }
    }
  }

  lemma Reassociate(stack: seq<string>, part: string, rest: seq<string>)
    ensures stack + [part] + rest == stack + ([part] + rest)
  {
  }

  /** Every accepted name joins to a path inside the destination, at the place its
      own components say. */
  lemma ValidNamesStayInside(dest: seq<string>, name: string)
    requires AllProper(dest) && ValidName(name)
    ensures Join(Render(dest), name) == Render(dest + NameParts(Split(name)))
    ensures IsWithinDir(Join(Render(dest), name), Render(dest))
  {
    JoinWalks(dest, name);
    ValidNameHasNoDotDot(name);
    WalkName(dest, Split(name));
    WithinIsComponentPrefix(dest + NameParts(Split(name)), dest);
  }

  // ---------- symbolic links ----------

  function Parent(parts: seq<string>): seq<string> {
    if parts == [] then [] else parts[..|parts| - 1]
  }

  lemma {:induction false} SlashedSnoc(front: seq<string>, last: string)
    ensures Slashed(front + [last]) == Slashed(front) + "/" + last
  {
    if front == [] {
      assert [] + [last] == [last];
      assert Slashed([last]) == "/" + last + Slashed([]);
    } else {
      SlashedSnoc(front[1..], last);
      assert (front + [last])[1..] == front[1..] + [last];
    }
  }

  lemma {:induction false} LastSlash(dir: string, part: string)
    requires NoSlash(part) && (dir == "" || IsAbs(dir))
    ensures UpToLastSlash(dir + "/" + part) == dir + "/"
    decreases |part|
  {
    var path := dir + "/" + part;
    if part == "" {
      assert path == dir + "/";
    } else {
      var shorter := part[..|part| - 1];
      assert path[..|path| - 1] == dir + "/" + shorter;
      assert path[|path| - 1] == part[|part| - 1];
      LastSlash(dir, shorter);
    }
  }

  lemma DirIsParent(parts: seq<string>)
    requires AllProper(parts)
    ensures Dir(Render(parts)) == Render(Parent(parts))
  {
    if parts == [] {
      SplitAtSlash("", "");
      assert "" + "/" + "" == "/";
      assert WalkAll([], ["", ""]) == [];
    } else {
      var front, last := parts[..|parts| - 1], parts[|parts| - 1];
      assert parts == front + [last];
      SlashedSnoc(front, last);
      assert Slashed(front) == "" || IsAbs(Slashed(front));
      LastSlash(Slashed(front), last);
      JoinEmpty(front);
    }
  }

  lemma JoinEmpty(parts: seq<string>)
    requires AllProper(parts)
    ensures Clean(Slashed(parts) + "/") == Render(parts)
  {
    assert Slashed(parts) + "/" == Slashed(parts) + "/" + "";
    SplitAtSlash(Slashed(parts), "");
    SplitSlashed(parts);
    WalkAppend([], [""] + parts, [""]);
    WalkAppend([], [""], parts);
    WalkProper([], parts);
    assert WalkAll([], [""]) == [];
    assert [] + parts == parts;
  }

  lemma CleanIsIdempotent(parts: seq<string>)
    requires AllProper(parts)
    ensures Clean(Render(parts)) == Render(parts)
  {
    if parts == [] {
      JoinEmpty([]);
      assert Slashed([]) + "/" == "/";
    } else {
      SplitSlashed(parts);
      WalkAppend([], [""], parts);
      WalkProper([], parts);
      assert WalkAll([], [""]) == [];
      assert [] + parts == parts;
    }
  }

  predicate SymlinkOk(absDestDir: string, linkPath: string, target: string)
    requires IsAbs(absDestDir)
  {
    && ValidName(linkPath) && !ContainsNull(target)
    && !IsAbs(target) && !HasPrefix(target, "\\")
    && IsWithinDir(Clean(Join(Dir(Join(absDestDir, linkPath)), target)), absDestDir)
  }

  /** The link's name is valid, its target is relative and has no NUL, and walking the
      target's components from the link's directory ends inside the destination. */
  predicate LinkStaysInside(dest: seq<string>, linkPath: string, target: string) {
    && ValidName(linkPath) && !ContainsNull(target) && !IsAbs(target) && !HasPrefix(target, "\\")
    && dest <= Resolved(dest, linkPath, target)
  }

  function Resolved(dest: seq<string>, linkPath: string, target: string): seq<string> {
    WalkAll(Parent(WalkAll(dest, Split(linkPath))), Split(target))
  }

  /** The path the code checks is the one that the components lead to. */
  lemma TargetIsResolved(dest: seq<string>, linkPath: string, target: string)
    requires AllProper(dest)
    ensures AllProper(Resolved(dest, linkPath, target))
    ensures Clean(Join(Dir(Join(Render(dest), linkPath)), target)) == Render(Resolved(dest, linkPath, target))
  {
    var link := WalkAll(dest, Split(linkPath));
    JoinWalks(dest, linkPath);
    DirIsParent(link);
    JoinWalks(Parent(link), target);
    CleanIsIdempotent(Resolved(dest, linkPath, target));
  }

  lemma SymlinkAcceptedIffInside(dest: seq<string>, linkPath: string, target: string)
    requires AllProper(dest)
    ensures SymlinkOk(Render(dest), linkPath, target) <==> LinkStaysInside(dest, linkPath, target)
  {
    TargetIsResolved(dest, linkPath, target);
    WithinIsComponentPrefix(Resolved(dest, linkPath, target), dest);
  }

  method ValidateSymlink(absDestDir: string, linkPath: string, target: string) returns (ok: bool)
    requires IsAbs(absDestDir)
    ensures ok <==> SymlinkOk(absDestDir, linkPath, target)
    ensures forall dest :: AllProper(dest) && absDestDir == Render(dest) ==>
      (ok <==> LinkStaysInside(dest, linkPath, target))
  {
    forall dest | AllProper(dest) && absDestDir == Render(dest)
      ensures SymlinkOk(absDestDir, linkPath, target) <==> LinkStaysInside(dest, linkPath, target)
    {
      SymlinkAcceptedIffInside(dest, linkPath, target);
    }
    var valid := ValidatePath(linkPath);
    if !valid || ContainsNull(target) {
      return false;
    }
    if IsAbs(target) || HasPrefix(target, "/") || HasPrefix(target, "\\") {
      return false;
    }
    var linkDir := Dir(Join(absDestDir, linkPath));
    var targetPath := Clean(Join(linkDir, target));
    ok := IsWithinDir(targetPath, absDestDir);
  }

  // ---------- the second containment test ----------

  /** isWithinOrEqual in internal/archive/extract.go. */
  predicate IsWithinOrEqual(path: string, dir: string) {
    path == dir || HasPrefix(path, if dir != "" && dir[|dir| - 1] == '/' then dir else dir + "/")
  }

  /** The two tests agree on all strings. */
  lemma ContainmentTestsAgree(path: string, dir: string)
    ensures IsWithinOrEqual(path, dir) <==> IsWithinDir(path, dir)
  {
  }
}
