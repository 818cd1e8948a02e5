/**
  Go's `path.Clean` and `path.Join`, and the path computed by
  `URL.JoinPath`, written out by their lexical rules:
    1. replace runs of slashes by one slash,
    2. drop each "." name,
    3. drop each inner ".." together with the name before it,
    4. drop ".." names at the start of a rooted path;
  the result ends in a slash only when it is "/", and an empty result is ".".
 */
module Paths {
  import opened Strings

  predicate IsRooted(s: string) {
    |s| > 0 && s[0] == '/'
  }

  /** No two adjacent slashes, i.e. no empty name inside the path. */
  predicate NoDoubleSlash(s: string) {
    forall i :: 0 <= i < |s| - 1 ==> !(s[i] == '/' && s[i + 1] == '/')
  }

  /** The names of `s` between slashes, `strings.Split(s, "/")`. */
  function Split(s: string): (names: seq<string>)
    ensures |names| >= 1
    ensures forall i :: 0 <= i < |names| ==> '/' !in names[i]
    decreases |s|
  {
    var j := LastIndexOf(s, '/');
    if j < 0 then [s]
    else
      NoneAfter(s, '/', j);
      Split(s[..j]) + [s[j + 1..]]
  }

  /** Nothing after the last `c` is a `c`. */
  lemma NoneAfter(s: string, c: char, j: int)
    requires -1 <= j < |s|
    requires forall k :: j < k < |s| ==> s[k] != c
    ensures c !in s[j + 1..]
  {
    var rest := s[j + 1..];
    forall k | 0 <= k < |rest| ensures rest[k] != c {
      assert rest[k] == s[j + 1 + k];
    }
  }

  /** The names joined by slashes, `strings.Join(names, "/")`. */
  function JoinNames(names: seq<string>): string
  {
    if |names| == 0 then ""
    else if |names| == 1 then names[0]
    else JoinNames(names[..|names| - 1]) + "/" + names[|names| - 1]
  }

  /** Joining names that contain no slash and splitting again gives the names back. */
  lemma {:induction false} SplitJoin(names: seq<string>)
    requires |names| >= 1
    requires forall i :: 0 <= i < |names| ==> '/' !in names[i]
    ensures Split(JoinNames(names)) == names
  {
    if |names| > 1 {
      var init, last := names[..|names| - 1], names[|names| - 1];
      assert names == init + [last];
      SplitJoin(init);
      SplitJoinStep(init, last);
    }
  }

  lemma SplitJoinStep(init: seq<string>, last: string)
    requires |init| >= 1 && '/' !in last
    ensures Split(JoinNames(init + [last])) == Split(JoinNames(init)) + [last]
  {
    var names := init + [last];
    assert names[..|names| - 1] == init;
    assert JoinNames(names) == JoinNames(init) + "/" + last;
    SplitConcatLast(JoinNames(init), last);
  }

  lemma {:induction false} JoinCons(a: string, names: seq<string>)
    requires |names| >= 1
    ensures JoinNames([a] + names) == a + "/" + JoinNames(names)
  {
    if |names| > 1 {
      var init := names[..|names| - 1];
      assert ([a] + names)[..|names|] == [a] + init;
      JoinCons(a, init);
    }
  }

  /** Names that are non-empty and slash-free join into a string that neither starts nor ends with a slash and has no empty name. */
  lemma {:induction false} JoinShape(names: seq<string>)
    requires |names| >= 1
    requires forall i :: 0 <= i < |names| ==> names[i] != "" && '/' !in names[i]
    ensures var j := JoinNames(names);
      |j| > 0 && j[0] == names[0][0] && j[|j| - 1] != '/' && NoDoubleSlash(j)
  {
    var last := names[|names| - 1];
    assert last[|last| - 1] in last;
    if |names| > 1 {
      var init := names[..|names| - 1];
      JoinShape(init);
      var j := JoinNames(init);
      var s := j + "/" + last;
      assert last[0] in last;
      forall i | 0 <= i < |s| - 1 ensures !(s[i] == '/' && s[i + 1] == '/') {
        if i < |j| - 1 {
          assert s[i] == j[i] && s[i + 1] == j[i + 1];
        } else if i > |j| {
          assert s[i] == last[i - |j| - 1];
        }
      }
    } else {
      assert names[0][0] in names[0];
    }
  }

  /**
    One name of `path.Clean`'s scan over `stack`, the names kept so far:
    empty and "." names are dropped, ".." removes the last kept name, and a
    ".." with nothing to remove is kept only in an unrooted path.
   */
  function Step(stack: seq<string>, name: string, rooted: bool): seq<string>
  {
    if name == "" || name == "." then stack
    else if name == ".." then
      if |stack| > 0 && stack[|stack| - 1] != ".." then stack[..|stack| - 1]
      else if rooted then stack
      else stack + [".."]
    else stack + [name]
  }

  function Resolve(names: seq<string>, rooted: bool): seq<string>
  {
    if |names| == 0 then []
    else Step(Resolve(names[..|names| - 1], rooted), names[|names| - 1], rooted)
  }

  /** The path `path.Clean` prints for canonical names. */
  function Print(names: seq<string>, rooted: bool): string
  {
    if rooted then "/" + JoinNames(names)
    else if |names| == 0 then "."
    else JoinNames(names)
  }

  /** `path.Clean`: the shortest path name equivalent to `s` by purely lexical processing. */
  function Clean(s: string): string
  {
    var rooted := IsRooted(s);
    Print(Resolve(Split(s), rooted), rooted)
  }

  /** The names a clean path consists of: no empty name, no ".", no slash, and ".." only as a leading run of an unrooted path. */
  ghost predicate Canonical(names: seq<string>, rooted: bool)
  {
    forall i :: 0 <= i < |names| ==>
      && names[i] != "" && names[i] != "." && '/' !in names[i]
      && (names[i] == ".." ==> !rooted && forall k :: 0 <= k < i ==> names[k] == "..")
  }

  lemma {:induction false} ResolveCanonical(names: seq<string>, rooted: bool)
    requires forall i :: 0 <= i < |names| ==> '/' !in names[i]
    ensures Canonical(Resolve(names, rooted), rooted)
  {
    if |names| > 0 {
      var init := names[..|names| - 1];
      ResolveCanonical(init, rooted);
      var stack := Resolve(init, rooted);
      var name := names[|names| - 1];
      if name == ".." && |stack| > 0 && stack[|stack| - 1] != ".." {
        assert Canonical(stack[..|stack| - 1], rooted);
      } else if name == ".." && !rooted {
        assert forall k :: 0 <= k < |stack| ==> stack[k] == "..";
      }
    }
  }

  /** Resolving names that are already canonical changes nothing. */
  lemma {:induction false} ResolveCanonicalFixpoint(names: seq<string>, rooted: bool)
    requires Canonical(names, rooted)
    ensures Resolve(names, rooted) == names
  {
    if |names| > 0 {
      var init := names[..|names| - 1];
      assert Canonical(init, rooted);
      ResolveCanonicalFixpoint(init, rooted);
      assert names == init + [names[|names| - 1]];
    }
  }

  lemma {:induction false} ResolveSkipsEmptyHead(names: seq<string>, rooted: bool)
    ensures Resolve([""] + names, rooted) == Resolve(names, rooted)
  {
    if |names| > 0 {
      var init := names[..|names| - 1];
      assert ([""] + names)[..|names|] == [""] + init;
      ResolveSkipsEmptyHead(init, rooted);
    }
  }

  lemma PrintShape(names: seq<string>, rooted: bool)
    requires Canonical(names, rooted)
    ensures var c := Print(names, rooted);
      && c != ""
      && (HasSuffix(c, "/") ==> c == "/")
      && (IsRooted(c) <==> rooted)
      && NoDoubleSlash(c)
  {
    var c := Print(names, rooted);
    if |names| > 0 {
      JoinShape(names);
      var j := JoinNames(names);
      assert names[0][0] in names[0];
      assert c[|c| - 1] == j[|j| - 1];
      assert c[|c| - 1..] == [c[|c| - 1]];
      if rooted {
        assert forall i :: 1 <= i < |c| ==> c[i] == j[i - 1];
      }
    }
  }

  /**
    The shape `path.Clean` promises: never empty, a trailing slash only on
    "/", rooted exactly when the input is, and no empty name.
   */
  lemma CleanShape(s: string)
    ensures Clean(s) != ""
    ensures HasSuffix(Clean(s), "/") ==> Clean(s) == "/"
    ensures IsRooted(Clean(s)) <==> IsRooted(s)
    ensures NoDoubleSlash(Clean(s))
  {
    ResolveCanonical(Split(s), IsRooted(s));
    PrintShape(Resolve(Split(s), IsRooted(s)), IsRooted(s));
  }

  lemma CleanOfRootedCanonical(names: seq<string>)
    requires |names| > 0 && Canonical(names, true)
    ensures Clean("/" + JoinNames(names)) == "/" + JoinNames(names)
  {
    var c := "/" + JoinNames(names);
    JoinCons("", names);
    assert c == JoinNames([""] + names);
    assert forall i :: 0 <= i < |[""] + names| ==> '/' !in ([""] + names)[i];
    SplitJoin([""] + names);
    ResolveSkipsEmptyHead(names, true);
    ResolveCanonicalFixpoint(names, true);
    assert Resolve(Split(c), true) == names;
  }

  lemma CleanOfUnrootedCanonical(names: seq<string>)
    requires |names| > 0 && Canonical(names, false)
    ensures Clean(JoinNames(names)) == JoinNames(names)
  {
    var c := JoinNames(names);
    JoinShape(names);
    assert names[0][0] in names[0];
    assert !IsRooted(c);
    SplitJoin(names);
    ResolveCanonicalFixpoint(names, false);
  }

  lemma SplitRoot()
    ensures Split("/") == ["", ""]
  {
    assert LastIndexOf("/", '/') == 0;
    assert "/"[..0] == "" && "/"[1..] == "";
    assert Split("") == [""];
  }

  lemma CleanRoot()
    ensures Clean("/") == "/"
  {
    SplitRoot();
    assert ["", ""][..1] == [""];
    assert Resolve(["", ""], true) == [];
  }

  lemma CleanDot()
    ensures Clean(".") == "."
  {
    assert Split(".") == ["."];
    assert ["."][..0] == [];
    assert Resolve(["."], false) == [];
  }

  /** Cleaning is idempotent: a clean path is its own clean form. */
  lemma CleanIdempotent(s: string)
    ensures Clean(Clean(s)) == Clean(s)
  {
    var rooted := IsRooted(s);
    var names := Resolve(Split(s), rooted);
    ResolveCanonical(Split(s), rooted);
    if |names| == 0 {
      CleanRoot();
      CleanDot();
    } else if rooted {
      CleanOfRootedCanonical(names);
    } else {
      CleanOfUnrootedCanonical(names);
    }
  }

  /** A trailing slash does not change the clean form of a non-empty path. */
  lemma CleanTrailingSlash(s: string)
    requires s != ""
    ensures Clean(s + "/") == Clean(s)
  {
    var t := s + "/";
    assert LastIndexOf(t, '/') == |s|;
    assert t[..|s|] == s;
    assert t[|s| + 1..] == "";
    assert Split(t) == Split(s) + [""];
    assert (Split(s) + [""])[..|Split(s)|] == Split(s);
  }


  /** A name `path.Clean` keeps as it is: non-empty, not "." or "..", no slash. */
  predicate Ordinary(name: string) {
    name != "" && name != "." && name != ".." && '/' !in name
  }

  /** The names with the empty ones left out. */
  function DropEmpty(names: seq<string>): seq<string>
  {
    if |names| == 0 then []
    else DropEmpty(names[..|names| - 1]) + (if names[|names| - 1] == "" then [] else [names[|names| - 1]])
  }

  lemma {:induction false} DropEmptyConcat(a: seq<string>, b: seq<string>)
    ensures DropEmpty(a + b) == DropEmpty(a) + DropEmpty(b)
  {
    if |b| == 0 {
      assert a + b == a;
    } else {
      var init, last := b[..|b| - 1], b[|b| - 1];
      assert (a + b)[..|a + b| - 1] == a + init;
      assert (a + b)[|a + b| - 1] == last;
      DropEmptyConcat(a, init);
    }
  }

  lemma {:induction false} DropEmptyOrdinary(names: seq<string>)
    requires forall i :: 0 <= i < |names| ==> Ordinary(names[i])
    ensures DropEmpty(names) == names
  {
    if |names| > 0 {
      DropEmptyOrdinary(names[..|names| - 1]);
    }
  }

  /** A string splits at its last slash. */
  lemma SplitAtLast(s: string, r: int)
    requires 0 <= r < |s| && s[r] == '/'
    requires forall k :: r < k < |s| ==> s[k] != '/'
    ensures Split(s) == Split(s[..r]) + [s[r + 1..]]
  {
    LastIndexOfIs(s, '/', r);
  }

  /** In `a + "/" + b`, no slash follows the position of the last slash of `b` (or of the added one). */
  lemma NoSlashAfter(a: string, b: string, j: int)
    requires -1 <= j < |b|
    requires forall k :: j < k < |b| ==> b[k] != '/'
    ensures forall k :: |a| + 1 + j < k < |a + "/" + b| ==> (a + "/" + b)[k] != '/'
  {
    var s := a + "/" + b;
    forall k | |a| + 1 + j < k < |s| ensures s[k] != '/' {
      assert s[k] == b[k - |a| - 1];
    }
  }

  lemma ConcatTail(a: string, b: string, j: int)
    requires -1 <= j < |b|
    ensures (a + "/" + b)[|a| + 1 + j + 1..] == b[j + 1..]
  {
  }

  lemma ConcatHead(a: string, b: string, j: int)
    requires 0 <= j < |b|
    ensures (a + "/" + b)[..|a| + 1 + j] == a + "/" + b[..j]
  {
  }

  /** The slash added between `a` and a slash-free `b` is the last one. */
  lemma SplitConcatLast(a: string, b: string)
    requires LastIndexOf(b, '/') < 0
    ensures Split(a + "/" + b) == Split(a) + [b]
  {
    var s := a + "/" + b;
    NoSlashAfter(a, b, -1);
    ConcatTail(a, b, -1);
    SplitAtLast(s, |a|);
    assert s[..|a|] == a;
  }

  /** The last slash of `b` is the last one of `a + "/" + b`. */
  lemma SplitConcatInner(a: string, b: string, j: int)
    requires 0 <= j < |b| && j == LastIndexOf(b, '/')
    ensures Split(a + "/" + b) == Split(a + "/" + b[..j]) + [b[j + 1..]]
  {
    var s, r := a + "/" + b, |a| + 1 + j;
    NoSlashAfter(a, b, j);
    ConcatTail(a, b, j);
    ConcatHead(a, b, j);
    assert s[r] == '/';
    SplitAtLast(s, r);
    assert s[..r] == a + "/" + b[..j];
    assert s[r + 1..] == b[j + 1..];
  }

  /** Splitting at a slash splits each side separately. */
  lemma {:induction false} SplitConcat(a: string, b: string)
    ensures Split(a + "/" + b) == Split(a) + Split(b)
    decreases |b|
  {
    var j := LastIndexOf(b, '/');
    if j < 0 {
      SplitConcatLast(a, b);
    } else {
      SplitConcatInner(a, b, j);
      SplitAtLast(b, j);
      SplitConcat(a, b[..j]);
      var x, y, z := Split(a), Split(b[..j]), [b[j + 1..]];
      assert (x + y) + z == x + (y + z);
    }
  }

  /** Resolving names that add only ordinary or empty names appends the ordinary ones to what was resolved before. */
  lemma {:induction false} ResolveAppendOrdinary(xs: seq<string>, ys: seq<string>, rooted: bool)
    requires forall i :: 0 <= i < |ys| ==> ys[i] == "" || Ordinary(ys[i])
    ensures Resolve(xs + ys, rooted) == Resolve(xs, rooted) + DropEmpty(ys)
  {
    if |ys| == 0 {
      assert xs + ys == xs;
    } else {
      var init := ys[..|ys| - 1];
      assert (xs + ys)[..|xs + ys| - 1] == xs + init;
      ResolveAppendOrdinary(xs, init, rooted);
    }
  }

  /** Names of only empty and ordinary names. */
  ghost predicate Plain(names: seq<string>) {
    forall i :: 0 <= i < |names| ==> names[i] == "" || Ordinary(names[i])
  }

  lemma NoSlashWithRoot(names: seq<string>)
    requires forall i :: 0 <= i < |names| ==> '/' !in names[i]
    ensures forall i :: 0 <= i < |[""] + names| ==> '/' !in ([""] + names)[i]
  {
  }

  lemma JoinRooted(names: seq<string>)
    requires |names| > 0
    ensures JoinNames([""] + names) == "/" + JoinNames(names)
  {
    JoinCons("", names);
    assert "" + "/" + JoinNames(names) == "/" + JoinNames(names);
  }

  lemma SplitRootedNames(names: seq<string>)
    requires |names| > 0 && forall i :: 0 <= i < |names| ==> '/' !in names[i]
    ensures Split("/" + JoinNames(names)) == [""] + names
  {
    JoinRooted(names);
    NoSlashWithRoot(names);
    SplitJoin([""] + names);
  }

  lemma PlainWithRoot(names: seq<string>)
    requires forall i :: 0 <= i < |names| ==> Ordinary(names[i])
    ensures Plain([""] + names)
  {
  }

  lemma DropEmptyWithRoot(names: seq<string>)
    requires forall i :: 0 <= i < |names| ==> Ordinary(names[i])
    ensures DropEmpty([""] + names) == names
  {
    DropEmptyConcat([""], names);
    DropEmptyOrdinary(names);
    assert DropEmpty([""]) == DropEmpty([]) + [];
  }

  lemma DropEmptyRoot()
    ensures Plain(["", ""]) && DropEmpty(["", ""]) == []
  {
    assert DropEmpty(["", ""]) == DropEmpty([""]) + [];
  }

  /** `s` consists of the ordinary `names`, with any number of empty names (runs of slashes) around them. */
  ghost predicate HasNames(s: string, names: seq<string>) {
    Plain(Split(s)) && DropEmpty(Split(s)) == names
  }

  lemma PlainConcat(a: seq<string>, b: seq<string>)
    requires Plain(a) && Plain(b)
    ensures Plain(a + b)
  {
    forall i | 0 <= i < |a + b| ensures (a + b)[i] == "" || Ordinary((a + b)[i]) {
      if i >= |a| {
        assert (a + b)[i] == b[i - |a|];
      }
    }
  }

  lemma HasNamesConcat(a: string, b: string, an: seq<string>, bn: seq<string>)
    requires HasNames(a, an) && HasNames(b, bn)
    ensures HasNames(a + "/" + b, an + bn)
  {
    SplitConcat(a, b);
    PlainConcat(Split(a), Split(b));
    DropEmptyConcat(Split(a), Split(b));
  }

  lemma HasNamesEmpty()
    ensures HasNames("", [])
  {
    assert Split("") == [""];
    assert DropEmpty([""]) == DropEmpty([]) + [];
  }

  /** A trailing slash adds only an empty name. */
  lemma HasNamesSlash(s: string, names: seq<string>)
    requires HasNames(s, names)
    ensures HasNames(s + "/", names)
  {
    HasNamesEmpty();
    HasNamesConcat(s, "", names, []);
    assert s + "/" + "" == s + "/";
    assert names + [] == names;
  }

  lemma HasNamesRooted(names: seq<string>)
    requires forall i :: 0 <= i < |names| ==> Ordinary(names[i])
    ensures HasNames("/" + JoinNames(names), names)
  {
    if |names| == 0 {
      SplitRoot();
      DropEmptyRoot();
    } else {
      SplitRootedNames(names);
      PlainWithRoot(names);
      DropEmptyWithRoot(names);
    }
  }

  lemma HasNamesRelative(names: seq<string>)
    requires |names| > 0 && forall i :: 0 <= i < |names| ==> Ordinary(names[i])
    ensures HasNames(JoinNames(names), names)
  {
    SplitJoin(names);
    DropEmptyOrdinary(names);
  }

  /** A rooted path of ordinary names with any runs of slashes cleans to those names joined by single slashes. */
  lemma CleanOfNames(s: string, names: seq<string>)
    requires IsRooted(s) && HasNames(s, names)
    ensures Clean(s) == "/" + JoinNames(names)
  {
    ResolveAppendOrdinary([], Split(s), true);
    assert [] + Split(s) == Split(s);
    assert Resolve([], true) == [];
    assert [] + names == names;
  }

  lemma HasNamesOptSlash(s: string, names: seq<string>, slash: bool)
    requires HasNames(s, names)
    ensures HasNames(s + (if slash then "/" else ""), names)
  {
    if slash {
      HasNamesSlash(s, names);
    } else {
      assert s + "" == s;
    }
  }

  /** The ordinary names, rooted or not, with or without a trailing slash, consist of those names. */
  lemma ElemNames(es: seq<string>, lead: bool, trail: bool)
    requires |es| > 0 && forall i :: 0 <= i < |es| ==> Ordinary(es[i])
    ensures HasNames((if lead then "/" else "") + JoinNames(es) + (if trail then "/" else ""), es)
  {
    var elem0 := (if lead then "/" else "") + JoinNames(es);
    if lead {
      HasNamesRooted(es);
    } else {
      HasNamesRelative(es);
      assert elem0 == JoinNames(es);
    }
    HasNamesOptSlash(elem0, es, trail);
  }

  /** A string ending in a character other than a slash ends in a slash only when one is appended. */
  lemma OptSlashSuffix(s: string, trail: bool)
    requires |s| > 0 && s[|s| - 1] != '/'
    ensures HasSuffix(s + (if trail then "/" else ""), "/") <==> trail
  {
    if !trail {
      assert s + "" == s;
      assert s[|s| - 1..] == [s[|s| - 1]];
    }
  }

  /** Ordinary names, rooted or not, end in a slash exactly when one is appended. */
  lemma ElemSuffix(es: seq<string>, lead: bool, trail: bool)
    requires |es| > 0 && forall i :: 0 <= i < |es| ==> Ordinary(es[i])
    ensures HasSuffix((if lead then "/" else "") + JoinNames(es) + (if trail then "/" else ""), "/") <==> trail
  {
    JoinShape(es);
    var j := JoinNames(es);
    var elem0 := (if lead then "/" else "") + j;
    assert elem0[|elem0| - 1] == j[|j| - 1];
    OptSlashSuffix(elem0, trail);
  }

  lemma NoTrailingSlash(names: seq<string>)
    requires |names| > 0 && forall i :: 0 <= i < |names| ==> Ordinary(names[i])
    ensures !HasSuffix("/" + JoinNames(names), "/")
  {
    JoinShape(names);
    var joined := "/" + JoinNames(names);
    assert joined[|joined| - 1] == JoinNames(names)[|JoinNames(names)| - 1];
    assert joined[|joined| - 1..] == [joined[|joined| - 1]];
  }

  /** On a rooted base, `URL.JoinPath` is `path.Join` of the two plus the kept trailing slash. */
  lemma JoinUrlPathRooted(base: string, elem: string)
    requires IsRooted(base)
    ensures var joined := Clean(base + "/" + elem);
      JoinUrlPath(base, elem) == if HasSuffix(elem, "/") && !HasSuffix(joined, "/") then joined + "/" else joined
  {
  }

  /** A base of ordinary names followed by a slash and an element of ordinary names consists of all those names. */
  lemma NamesOfConcat(bs: seq<string>, es: seq<string>, baseSlash: bool, lead: bool, trail: bool)
    requires forall i :: 0 <= i < |bs| ==> Ordinary(bs[i])
    requires forall i :: 0 <= i < |es| ==> Ordinary(es[i])
    requires |es| > 0
    ensures HasNames(("/" + JoinNames(bs) + (if baseSlash then "/" else "")) + "/"
                     + ((if lead then "/" else "") + JoinNames(es) + (if trail then "/" else "")), bs + es)
  {
    HasNamesRooted(bs);
    HasNamesOptSlash("/" + JoinNames(bs), bs, baseSlash);
    ElemNames(es, lead, trail);
    HasNamesConcat("/" + JoinNames(bs) + (if baseSlash then "/" else ""),
                   (if lead then "/" else "") + JoinNames(es) + (if trail then "/" else ""), bs, es);
  }

  /** When the clean form of the concatenation does not end in a slash, `URL.JoinPath` adds one exactly when `elem` ends in one. */
  lemma JoinUrlPathOfClean(base: string, elem: string, c: string, trail: bool)
    requires IsRooted(base)
    requires Clean(base + "/" + elem) == c && !HasSuffix(c, "/")
    requires HasSuffix(elem, "/") <==> trail
    ensures JoinUrlPath(base, elem) == c + (if trail then "/" else "")
  {
    JoinUrlPathRooted(base, elem);
    if !trail {
      assert c + "" == c;
    }
  }

  /**
    Joining a path of ordinary names onto a base of ordinary names neither
    loses nor doubles a separator: the result is the base's names and then
    the element's, each after one slash, ending in a slash exactly when the
    element does, whether or not the base ends in a slash and the element
    starts with one.
   */
  lemma JoinUrlPathOrdinary(bs: seq<string>, es: seq<string>, baseSlash: bool, lead: bool, trail: bool)
    requires forall i :: 0 <= i < |bs| ==> Ordinary(bs[i])
    requires forall i :: 0 <= i < |es| ==> Ordinary(es[i])
    requires |es| > 0
    ensures JoinUrlPath("/" + JoinNames(bs) + (if baseSlash then "/" else ""),
                        (if lead then "/" else "") + JoinNames(es) + (if trail then "/" else ""))
         == "/" + JoinNames(bs + es) + (if trail then "/" else "")
  {
    var base := "/" + JoinNames(bs) + (if baseSlash then "/" else "");
    var elem := (if lead then "/" else "") + JoinNames(es) + (if trail then "/" else "");
    NamesOfConcat(bs, es, baseSlash, lead, trail);
    OrdinaryConcat(bs, es);
    assert IsRooted(base + "/" + elem);
    CleanOfNames(base + "/" + elem, bs + es);
    NoTrailingSlash(bs + es);
    ElemSuffix(es, lead, trail);
    JoinUrlPathOfClean(base, elem, "/" + JoinNames(bs + es), trail);
  }

  lemma OrdinaryConcat(a: seq<string>, b: seq<string>)
    requires forall i :: 0 <= i < |a| ==> Ordinary(a[i])
    requires forall i :: 0 <= i < |b| ==> Ordinary(b[i])
    ensures forall i :: 0 <= i < |a + b| ==> Ordinary((a + b)[i])
  {
    forall i | 0 <= i < |a + b| ensures Ordinary((a + b)[i]) {
      if i >= |a| {
        assert (a + b)[i] == b[i - |a|];
      }
    }
  }

  /** The join of a base ending in a slash and an element starting with one keeps a single slash between them. */
  lemma JoinUrlPathExample()
    ensures JoinUrlPath("/v1/", "/users") == "/v1/users"
  {
    JoinUrlPathOrdinary(["v1"], ["users"], true, true, false);
    assert "/" + JoinNames(["v1"]) + "/" == "/v1/";
    assert "/" + JoinNames(["users"]) + "" == "/users";
    assert ["v1"] + ["users"] == ["v1", "users"];
    assert JoinNames(["v1", "users"]) == "v1" + "/" + "users";
  }

  /** `path.Join(a, b)`: the non-empty arguments joined by a slash and cleaned; "" when both are empty. */
  function Join(a: string, b: string): string
  {
    if a == "" && b == "" then ""
    else if a == "" then Clean(b)
    else Clean(a + "/" + b)
  }

  /**
    The path `URL.JoinPath(elem)` gives a URL whose path is `base`: an
    unrooted base is joined as if rooted and the leading slash removed
    again; a trailing slash on `elem` is kept.
   */
  function JoinUrlPath(base: string, elem: string): string
  {
    var joined :=
      if IsRooted(base) then Join(base, elem)
      else (CleanShape("/" + base + "/" + elem); Join("/" + base, elem)[1..]);
    if HasSuffix(elem, "/") && !HasSuffix(joined, "/") then joined + "/" else joined
  }

  /** Appending a slash to a clean rooted path that lacks one keeps it rooted with no empty name. */
  lemma SlashedShape(joined: string, trailing: bool)
    requires IsRooted(joined) && NoDoubleSlash(joined)
    requires HasSuffix(joined, "/") ==> joined == "/"
    ensures var r := if trailing && !HasSuffix(joined, "/") then joined + "/" else joined;
      && IsRooted(r)
      && NoDoubleSlash(r)
      && (HasSuffix(r, "/") <==> trailing || r == "/")
  {
    if trailing && !HasSuffix(joined, "/") {
      var r := joined + "/";
      assert joined[|joined| - 1] != '/' by {
        assert joined[|joined| - 1..] == [joined[|joined| - 1]];
      }
      forall i | 0 <= i < |r| - 1 ensures !(r[i] == '/' && r[i + 1] == '/') {
        if i < |joined| - 1 {
          assert r[i] == joined[i] && r[i + 1] == joined[i + 1];
        }
      }
      assert r[|r| - 1..] == "/";
    } else if !HasSuffix(joined, "/") {
      assert joined != "/";
    }
  }

  /**
    Joining onto a rooted base gives a rooted path with no empty name, whose
    clean form is that of the plain concatenation, and which ends in a slash
    exactly when `elem` does (or when it is "/").
   */
  lemma JoinUrlPathShape(base: string, elem: string)
    requires IsRooted(base)
    ensures var r := JoinUrlPath(base, elem);
      && IsRooted(r)
      && NoDoubleSlash(r)
      && (HasSuffix(r, "/") <==> HasSuffix(elem, "/") || r == "/")
      && Clean(r) == Clean(base + "/" + elem)
  {
    var cat := base + "/" + elem;
    var joined := Clean(cat);
    JoinUrlPathRooted(base, elem);
    assert IsRooted(cat);
    CleanShape(cat);
    SlashedShape(joined, HasSuffix(elem, "/"));
    CleanIdempotent(cat);
    if HasSuffix(elem, "/") && !HasSuffix(joined, "/") {
      CleanTrailingSlash(joined);
    }
  }
}
