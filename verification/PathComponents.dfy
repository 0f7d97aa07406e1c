/** The double-ended iterator over the components of a path, and the path operations built on it
    (lib/path/src/lib.rs). */
module PathComponents {
  import opened Wrappers

  type Bytes = seq<char>

  const SEP: char := '/'

  datatype Component = RootDir | CurDir | ParentDir | Normal(name: Bytes)

  // ---- the specification: split on slashes -------------------------------------------------------

  predicate HasRoot(p: Bytes) {
    p != [] && p[0] == SEP
  }

  /** A leading "." that is a component of its own is kept; any other "." is dropped. */
  predicate IncludeCurDir(p: Bytes) {
    p != [] && p[0] == '.' && (|p| == 1 || p[1] == SEP)
  }

  /** The component that a piece between slashes stands for, if any. */
  function Single(piece: Bytes): seq<Component> {
    if piece == "." || piece == [] then []
    else if piece == ".." then [ParentDir]
    else [Normal(piece)]
  }

  /** The pieces between slashes. */
  function Split(p: Bytes): (r: seq<Bytes>)
    ensures |r| > 0
  {
    if p == [] then [[]]
    else
      var rest := Split(p[1..]);
      if p[0] == SEP then [[]] + rest else Prepend(p[0], rest)
  }

  function Prepend(c: char, pieces: seq<Bytes>): (r: seq<Bytes>)
    requires |pieces| > 0
    ensures |r| == |pieces|
  {
    [[c] + pieces[0]] + pieces[1..]
  }

  function Singles(pieces: seq<Bytes>): seq<Component> {
    if pieces == [] then [] else Single(pieces[0]) + Singles(pieces[1..])
  }

  function Head(p: Bytes): seq<Component> {
    if HasRoot(p) then [RootDir] else if IncludeCurDir(p) then [CurDir] else []
  }

  /** The components of a path: the root or a leading ".", then the pieces that name something. */
  function Components(p: Bytes): seq<Component> {
    Head(p) + Body(p)
  }

  function Body(p: Bytes): seq<Component> {
    Singles(Split(p))
  }

  // ---- splitting at a slash ------------------------------------------------------------------------

  lemma {:induction false} SplitAt(a: Bytes, b: Bytes)
    ensures Split(a + [SEP] + b) == Split(a) + Split(b)
  {
    if a == [] {
      assert a + [SEP] + b == [SEP] + b;
      assert ([SEP] + b)[1..] == b;
    } else {
      SplitAt(a[1..], b);
      var w, s, t := a + [SEP] + b, Split(a[1..]), Split(b);
      assert w[0] == a[0] && w[1..] == a[1..] + [SEP] + b;
      assert [[]] + (s + t) == ([[]] + s) + t;
      PrependConcat(a[0], s, t);
    }
  }

  lemma {:induction false} PrependConcat(c: char, s: seq<Bytes>, t: seq<Bytes>)
    requires |s| > 0
    ensures Prepend(c, s + t) == Prepend(c, s) + t
  {
    assert (s + t)[1..] == s[1..] + t;
  }

  lemma {:induction false} Assoc(a: seq<Component>, b: seq<Component>, c: seq<Component>)
    ensures a + (b + c) == (a + b) + c
  {
  }

  lemma {:induction false} SinglesConcat(a: seq<Bytes>, b: seq<Bytes>)
    ensures Singles(a + b) == Singles(a) + Singles(b)
  {
    if a == [] {
      assert a + b == b;
    } else {
      SinglesConcat(a[1..], b);
      assert (a + b)[0] == a[0] && (a + b)[1..] == a[1..] + b;
      Assoc(Single(a[0]), Singles(a[1..]), Singles(b));
    }
  }

  /** The body of a path splits at any slash. */
  lemma {:induction false} BodyAt(a: Bytes, b: Bytes)
    ensures Body(a + [SEP] + b) == Body(a) + Body(b)
  {
    SplitAt(a, b);
    SinglesConcat(Split(a), Split(b));
  }

  predicate NoSep(p: Bytes) {
    forall i :: 0 <= i < |p| ==> p[i] != SEP
  }

  lemma {:induction false} SplitNoSep(p: Bytes)
    requires NoSep(p)
    ensures Split(p) == [p]
  {
    if p != [] {
      SplitNoSep(p[1..]);
      assert [p[0]] + p[1..] == p;
    }
  }

  lemma {:induction false} BodyNoSep(p: Bytes)
    requires NoSep(p)
    ensures Body(p) == Single(p)
  {
    SplitNoSep(p);
    assert Singles([]) == [];
    assert [p][1..] == [];
  }

  lemma {:induction false} BodyEmpty()
    ensures Body([]) == []
  {
    BodyNoSep([]);
  }

  /** The piece before the first slash. */
  lemma {:induction false} FirstPiece(p: Bytes, i: nat)
    requires i < |p| && p[i] == SEP && NoSep(p[..i])
    ensures Body(p) == Single(p[..i]) + Body(p[i + 1..])
  {
    assert p == p[..i] + [SEP] + p[i + 1..];
    BodyAt(p[..i], p[i + 1..]);
    BodyNoSep(p[..i]);
  }

  /** Main result: what a single piece stands for.  With `BodyAt` and `HeadLaw` this determines the components
      of every path. */
  lemma {:induction false} PieceLaw(piece: Bytes)
    requires NoSep(piece)
    ensures Body(piece) == if piece == [] || piece == ['.'] then [] else if piece == ['.', '.'] then [ParentDir]
                           else [Normal(piece)]
  {
    BodyNoSep(piece);
  }

  /** Main result: a path begins with the root exactly when it begins with a slash, and with the current
      directory exactly when its first piece is a single dot; nothing else comes before its body. */
  lemma {:induction false} HeadLaw(p: Bytes)
    ensures Components(['/'] + p) == [RootDir] + Body(p)
    ensures Components(['.', '/'] + p) == [CurDir] + Body(p)
    ensures Components(['.']) == [CurDir] && Components([]) == []
    ensures p != [] && p[0] != '/' && p != ['.'] && !(['.', '/'] <= p) ==> Components(p) == Body(p)
  {
    hide Body;
    RootLaw(p);
    CurDirLaw(p);
    BodyEmpty();
    BodyNoSep(['.']);
    if |p| >= 2 { assert p[..2] == [p[0], p[1]]; }
  }

  lemma {:induction false} RootLaw(p: Bytes)
    ensures Head(['/'] + p) == [RootDir] && Body(['/'] + p) == Body(p)
  {
    hide Body;
    BodyAt([], p);
    assert [] + [SEP] + p == ['/'] + p;
    BodyEmpty();
  }

  lemma {:induction false} CurDirLaw(p: Bytes)
    ensures Head(['.', '/'] + p) == [CurDir] && Body(['.', '/'] + p) == Body(p)
  {
    hide Body;
    BodyAt(['.'], p);
    assert ['.'] + [SEP] + p == ['.', '/'] + p;
    BodyNoSep(['.']);
  }

  /** A path that is nothing but its head has no body. */
  lemma {:induction false} BodyOfHead(p: Bytes)
    requires |p| <= |Head(p)|
    ensures Body(p) == []
  {
    BodyEmpty();
    if p != [] {
      assert p[1..] == [];
    }
  }

  /** The root or a leading "." names nothing in the body. */
  lemma {:induction false} BodyAfterHead(p: Bytes)
    requires Head(p) != []
    ensures Body(p[1..]) == Body(p)
  {
    BodyEmpty();
    if HasRoot(p) {
      assert p == [] + [SEP] + p[1..];
      BodyAt([], p[1..]);
    } else {
      BodyNoSep(".");
      if |p| == 1 {
        assert p == ".";
      } else {
        assert p == "." + [SEP] + p[2..] && p[1..] == [] + [SEP] + p[2..];
        BodyAt(".", p[2..]);
        BodyAt([], p[2..]);
      }
    }
  }

  /** A path whose body has no slash. */
  lemma {:induction false} WholeBody(p: Bytes, start: nat)
    requires start <= |p| && NoSep(p[start..]) && (start == 0 || (start == 1 && Head(p) != []))
    ensures Body(p[..start]) == [] && Body(p) == Single(p[start..])
  {
    BodyNoSep(p[start..]);
    if start == 0 {
      BodyEmpty();
      assert p[0..] == p;
    } else {
      BodyOfHead(p[..1]);
    }
  }

  /** The piece after the last slash. */
  lemma {:induction false} LastPiece(p: Bytes, i: nat)
    requires i < |p| && p[i] == SEP && NoSep(p[i + 1..])
    ensures Body(p) == Body(p[..i]) + Single(p[i + 1..])
  {
    assert p == p[..i] + [SEP] + p[i + 1..];
    BodyAt(p[..i], p[i + 1..]);
    BodyNoSep(p[i + 1..]);
  }

  /** Cutting a path at a slash, or down to its head, keeps its head. */
  lemma {:induction false} HeadAfterCut(p: Bytes, k: nat)
    requires |Head(p)| <= k <= |p|
    requires k == |Head(p)| || k == |p| || p[k] == SEP
    ensures Head(p[..k]) == Head(p)
  {
  }

  /** The list of an optional component. */
  function Opt(c: Option<Component>): seq<Component> {
    if c.Some? then [c.value] else []
  }

  // ---- trimmed paths -------------------------------------------------------------------------------

  /** The piece before place i is the first one, and names something. */
  ghost predicate NamesUpTo(p: Bytes, i: int) {
    0 <= i <= |p| && NoSep(p[..i]) && (i == |p| || p[i] == SEP) && Single(p[..i]) != []
  }

  /** The path is empty or begins with a piece that names something: no slash and no ".". */
  ghost predicate StartsNamed(p: Bytes) {
    p == [] || exists i :: NamesUpTo(p, i)
  }

  /** The piece from place i on is the last one behind the first n bytes, and names something. */
  ghost predicate NamesFrom(p: Bytes, n: nat, i: int) {
    n <= i <= |p| && NoSep(p[i..]) && (i == n || p[i - 1] == SEP) && Single(p[i..]) != []
  }

  /** Behind its first n bytes the path has nothing, or ends with a piece that names something. */
  ghost predicate EndsNamed(p: Bytes, n: nat) {
    |p| <= n || exists i :: NamesFrom(p, n, i)
  }

  /** Cutting off a last piece that names nothing keeps the first one. */
  lemma {:induction false} StartKept(p: Bytes, k: nat)
    requires StartsNamed(p) && k < |p| && (k == 0 || p[k] == SEP)
    requires k == 0 ==> p[0] == SEP || (NoSep(p) && Single(p) == [])
    ensures StartsNamed(p[..k])
  {
    var i :| NamesUpTo(p, i);
    if i <= k {
      assert p[..k][..i] == p[..i];
      assert NamesUpTo(p[..k], i);
    } else {
      assert p[..i][k] == p[k];
      if k == 0 && i == |p| { assert p[..i] == p; }
    }
  }

  ghost predicate IsPart(r: Bytes, p: Bytes) {
    exists i, j :: IsSlice(r, p, i, j)
  }

  ghost predicate IsSlice(r: Bytes, p: Bytes, i: int, j: int) {
    0 <= i <= j <= |p| && r == p[i..j]
  }

  lemma {:induction false} PrefixIsPart(r: Bytes, p: Bytes)
    requires r <= p
    ensures IsPart(r, p)
  {
    assert IsSlice(r, p, 0, |r|);
  }

  lemma {:induction false} SliceOfSlice(p: Bytes, k: nat, l: nat, i: nat, j: nat)
    requires k <= l <= |p| && i <= j <= l - k
    ensures p[k..l][i..j] == p[k + i..k + j]
  {
    var a, b := p[k..l][i..j], p[k + i..k + j];
    assert |a| == |b|;
    forall x | 0 <= x < |a|
      ensures a[x] == b[x]
    {
      assert a[x] == p[k..l][i + x];
    }
  }

  lemma {:induction false} PartOfPart(r: Bytes, q: Bytes, p: Bytes)
    requires IsPart(r, q) && IsPart(q, p)
    ensures IsPart(r, p)
  {
    var i, j :| IsSlice(r, q, i, j);
    var k, l :| IsSlice(q, p, k, l);
    SliceOfSlice(p, k, l, i, j);
    assert IsSlice(r, p, k + i, k + j);
  }

  // ---- the iterator ----------------------------------------------------------------------------------

  /** What has been produced from either end; the order of the constructors is the source's. */
  datatype State = Prefix | StartDir | InBody | Done
  {
    function Rank(): nat {
      match this case Prefix => 0 case StartDir => 1 case InBody => 2 case Done => 3
    }
  }

  /** The components of a path whose head may have been produced already. */
  ghost function Left(withHead: bool, p: Bytes): seq<Component> {
    if withHead then Components(p) else Body(p)
  }

  /** Position of the first separator. */
  method FindSep(p: Bytes) returns (r: Option<nat>)
    ensures r.Some? ==> r.value < |p| && p[r.value] == SEP && NoSep(p[..r.value])
    ensures r.None? ==> NoSep(p)
  {
    var i := 0;
    while i < |p|
      invariant i <= |p| && NoSep(p[..i])
    {
      if p[i] == SEP { return Some(i); }
      i := i + 1;
    }
    return None;
  }

  /** Position of the last separator at or after `start`. */
  method FindLastSep(p: Bytes, start: nat) returns (r: Option<nat>)
    requires start <= |p|
    ensures r.Some? ==> start <= r.value < |p| && p[r.value] == SEP && NoSep(p[r.value + 1..])
    ensures r.None? ==> NoSep(p[start..])
  {
    var i := |p|;
    while i > start
      invariant start <= i <= |p| && NoSep(p[i..])
    {
      i := i - 1;
      if p[i] == SEP { return Some(i); }
    }
    return None;
  }

  class Iterator {
    var path: Bytes
    const hasPhysicalRoot: bool
    var front: State
    var back: State

    constructor (p: Bytes)
      ensures Valid() && Remaining() == Components(p)
      ensures path == p && hasPhysicalRoot == HasRoot(p) && front == Prefix && back == InBody
    {
      path := p;
      hasPhysicalRoot := HasRoot(p);
      front := Prefix;
      back := InBody;
    }

    predicate Finished()
      reads this
    {
      front == Done || back == Done || front.Rank() > back.Rank()
    }

    /** The root or leading "." has been produced neither from the front nor from the back. */
    predicate HeadLeft()
      reads this
    {
      front.Rank() <= 1 && 1 <= back.Rank() <= 2
    }

    /** The components still to come. */
    ghost function Remaining(): seq<Component>
      reads this
    {
      if Finished() then []
      else Left(HeadLeft(), path)
    }

    ghost predicate Valid()
      reads this
    {
      && (HeadLeft() ==> (hasPhysicalRoot <==> HasRoot(path)))
      && (back == StartDir && HeadLeft() ==> |path| == |Head(path)|)
      && (back == Prefix ==> path == [])
      && (Finished() ==> path == [])
    }

    /** How much of the path precedes the body. */
    function LenBeforeBody(): (n: nat)
      reads this
    {
      (if front.Rank() <= 1 && hasPhysicalRoot then 1 else 0) +
      (if front.Rank() <= 1 && !hasPhysicalRoot && IncludeCurDir(path) then 1 else 0)
    }

    /** Parses one piece from the left: how many bytes to consume, and its component. */
    method ParseNextComponent() returns (size: nat, comp: Option<Component>)
      requires Valid() && front == InBody && path != []
      ensures 0 < size <= |path|
      ensures Body(path) == Opt(comp) + Body(path[size..])
      ensures comp.Some? ==> Head(path) == [] && StartsNamed(path)
    {
      hide Body;
      var i := FindSep(path);
      var piece := if i.Some? then path[..i.value] else path;
      size := |piece| + (if i.Some? then 1 else 0);
      comp := ParseSingleComponent(piece);
      BodyEmpty();
      assert path[|path|..] == [];
      if i.Some? { FirstPiece(path, i.value); } else { WholeBody(path, 0); }
      assert path[..|path|] == path;
      assert comp.Some? ==> NamesUpTo(path, |piece|);
    }

    /** Parses one piece from the right. */
    method ParseNextComponentBack() returns (size: nat, comp: Option<Component>)
      requires Valid() && back == InBody && |path| > LenBeforeBody()
      requires front.Rank() <= 2
      ensures 0 < size <= |path| - LenBeforeBody()
      ensures |path| - size == LenBeforeBody() || path[|path| - size] == SEP
      ensures Body(path) == Body(path[..|path| - size]) + Opt(comp)
      ensures comp.Some? ==> EndsNamed(path, LenBeforeBody())
      ensures comp.None? && |path| == size ==> path[0] == SEP || (NoSep(path) && Single(path) == [])
    {
      var start := LenBeforeBody();
      var i := FindLastSep(path, start);
      var piece := if i.Some? then path[i.value + 1..] else path[start..];
      size := |piece| + (if i.Some? then 1 else 0);
      comp := ParseSingleComponent(piece);
      if i.Some? { LastPiece(path, i.value); } else { WholeBody(path, start); }
      assert comp.Some? ==> NamesFrom(path, start, |path| - |piece|);
      assert path[0..] == path;
    }

    /** The start of the path: produces the root or the leading ".", if there is one. */
    method TakeHead() returns (r: Option<Component>)
      requires Valid() && !Finished() && front == StartDir
      modifies this`path, this`front
      ensures Valid() && front == InBody
      ensures old(Remaining()) == Opt(r) + Remaining()
    {
      hide Body;
      if Head(path) != [] { BodyAfterHead(path); }
      front := InBody;
      if hasPhysicalRoot {
        path := path[1..];
        r := Some(RootDir);
      } else if IncludeCurDir(path) {
        path := path[1..];
        r := Some(CurDir);
      } else {
        r := None;
      }
      if back == StartDir { BodyEmpty(); }
    }

    /** The next component from the front. */
    method Next() returns (r: Option<Component>)
      requires Valid()
      modifies this`path, this`front
      ensures Valid()
      ensures r.Some? ==> old(Remaining()) == [r.value] + Remaining()
      ensures r.None? ==> old(Remaining()) == [] && Finished()
    {
      hide Body;
      while !Finished()
        invariant Valid() && Remaining() == old(Remaining())
        decreases 3 - front.Rank(), |path|
      {
        match front
        case Prefix =>
          front := StartDir;
          if back == Prefix { BodyEmpty(); }
        case StartDir =>
          r := TakeHead();
          if r.Some? { return; }
        case InBody =>
          if path != [] {
            r := TakeFirst();
            if r.Some? { return; }
          } else {
            BodyEmpty();
            front := Done;
          }
        case Done =>
          assert false;
      }
      return None;
    }

    /** When the path is no longer than what precedes the body, the body is used up. */
    lemma {:induction false} BodyOfShort()
      requires Valid() && !Finished() && back == InBody && |path| <= LenBeforeBody()
      ensures Body(path) == [] && (HeadLeft() ==> |path| == |Head(path)|) && (front == InBody ==> path == [])
    {
      if front == InBody { BodyEmpty(); } else { BodyOfHead(path); }
    }

    /** The end of the body at the back: produces the root or the leading "." from the back. */
    method TakeHeadBack() returns (r: Option<Component>)
      requires Valid() && !Finished() && back == StartDir
      modifies this`path, this`back
      ensures Valid() && back == Prefix
      ensures old(Remaining()) == Remaining() + Opt(r)
    {
      BodyOfHead(path);
      BodyEmpty();
      back := Prefix;
      if hasPhysicalRoot {
        path := path[..|path| - 1];
        r := Some(RootDir);
      } else if IncludeCurDir(path) {
        path := path[..|path| - 1];
        r := Some(CurDir);
      } else {
        r := None;
      }
    }

    /** The next component from the back. */
    method NextBack() returns (r: Option<Component>)
      requires Valid()
      modifies this`path, this`back
      ensures Valid()
      ensures r.Some? ==> old(Remaining()) == Remaining() + [r.value]
      ensures r.None? ==> old(Remaining()) == [] && Finished()
      ensures path <= old(path)
    {
      hide Body;
      hide Components;
      while !Finished()
        invariant Valid() && Remaining() == old(Remaining())
        invariant path <= old(path)
        decreases if back == Done then 0 else back.Rank() + 1, |path|
      {
        match back
        case InBody =>
          if |path| > LenBeforeBody() {
            r := TakeLast();
            if r.Some? { return; }
          } else {
            BodyOfShort();
            back := StartDir;
          }
        case StartDir =>
          r := TakeHeadBack();
          if r.Some? { return; }
        case Prefix =>
          BodyEmpty();
          back := Done;
          return None;
        case Done =>
          assert false;
      }
      return None;
    }

    /** All components still to come, from the front. */
    method Collect() returns (r: seq<Component>)
      requires Valid()
      modifies this`path, this`front
      ensures Valid() && r == old(Remaining()) && Remaining() == []
    {
      hide Body;
      hide Components;
      r := [];
      while true
        invariant Valid() && r + Remaining() == old(Remaining())
        decreases |Remaining()|
      {
        ghost var r0, before := r, Remaining();
        var c := Next();
        if c.None? { return; }
        assert |before| == |Remaining()| + 1;
        r := r + [c.value];
        Assoc(r0, [c.value], Remaining());
      }
    }

    /** Drops pieces that name nothing from the left of the body. */
    method TrimLeft()
      requires Valid() && front == InBody
      modifies this`path
      ensures Valid() && Remaining() == old(Remaining())
      ensures Head(path) == [] && StartsNamed(path)
      ensures IsPart(path, old(path))
    {
      hide Body;
      hide NamesUpTo;
      ghost var cut := 0;
      while path != []
        invariant Valid() && Body(path) == Body(old(path))
        invariant 0 <= cut <= |old(path)| && path == old(path)[cut..]
        decreases |path|
      {
        var size, comp := ParseNextComponent();
        if comp.Some? { break; }
        path := path[size..];
        cut := cut + size;
      }
      assert IsSlice(path, old(path), cut, |old(path)|);
    }

    /** Drops the last piece if it names nothing. */
    method TrimOne() returns (named: bool)
      requires Valid() && back == InBody && |path| > LenBeforeBody()
      requires front.Rank() >= 2 ==> Head(path) == []
      modifies this`path
      ensures Valid() && path <= old(path)
      ensures named ==> path == old(path) && EndsNamed(path, LenBeforeBody())
      ensures front.Rank() >= 2 && StartsNamed(old(path)) ==> StartsNamed(path)
      ensures !named ==> |path| < |old(path)| && Head(path) == Head(old(path)) && Body(path) == Body(old(path))
    {
      hide Body;
      var size, comp := ParseNextComponentBack();
      named := comp.Some?;
      if !named {
        if front.Rank() >= 2 && StartsNamed(path) { StartKept(path, |path| - size); }
        HeadAfterCut(path, |path| - size);
        path := path[..|path| - size];
      }
    }

    /** Drops pieces that name nothing from the right of the body. */
    method TrimRight()
      requires Valid() && back == InBody
      requires front.Rank() >= 2 ==> Head(path) == []
      modifies this`path
      ensures Valid() && Remaining() == old(Remaining())
      ensures path <= old(path) && Head(path) == Head(old(path))
      ensures EndsNamed(path, LenBeforeBody())
      ensures front.Rank() >= 2 && StartsNamed(old(path)) ==> StartsNamed(path)
    {
      hide Body;
      hide StartsNamed;
      hide NamesFrom;
      while |path| > LenBeforeBody()
        invariant front.Rank() >= 2 && StartsNamed(old(path)) ==> StartsNamed(path)
        invariant Valid() && path <= old(path)
        invariant Head(path) == Head(old(path)) && Body(path) == Body(old(path))
        decreases |path|
      {
        var named := TrimOne();
        if named { return; }
      }
    }

    /** The path that the iterator still has to walk, a part of the path: its components are those still to
        come, and on the sides from which the body is walked nothing is left that names nothing. */
    method AsPath() returns (r: Bytes)
      requires Valid()
      ensures Components(r) == Remaining()
      ensures IsPart(r, path) && (front.Rank() <= 1 ==> r <= path)
      ensures front == InBody ==> StartsNamed(r)
      ensures back == InBody ==> EndsNamed(r, if front.Rank() <= 1 then |Head(r)| else 0)
    {
      hide StartsNamed;
      hide NamesFrom;
      hide IsPart;
      hide Body;
      var comps := new Iterator.Clone(this);
      PrefixIsPart(path, path);
      if comps.front == InBody {
        comps.TrimLeft();
      }
      ghost var trimmed := comps.path;
      if comps.back == InBody {
        comps.TrimRight();
      }
      PrefixIsPart(comps.path, trimmed);
      PartOfPart(comps.path, trimmed, path);
      if comps.Finished() { BodyEmpty(); }
      return comps.path;
    }

    constructor Clone(other: Iterator)
      requires other.Valid()
      ensures path == other.path && hasPhysicalRoot == other.hasPhysicalRoot
      ensures front == other.front && back == other.back
      ensures Valid() && Remaining() == other.Remaining()
    {
      path, hasPhysicalRoot, front, back := other.path, other.hasPhysicalRoot, other.front, other.back;
    }

    /** Cuts the first piece off the path. */
    method TakeFirst() returns (r: Option<Component>)
      requires Valid() && !Finished() && front == InBody && path != []
      modifies this`path
      ensures Valid() && |path| < |old(path)|
      ensures old(Remaining()) == Opt(r) + Remaining()
    {
      hide Body;
      var size;
      size, r := ParseNextComponent();
      path := path[size..];
    }

    /** Cuts the last piece off the path. */
    method TakeLast() returns (r: Option<Component>)
      requires Valid() && !Finished() && back == InBody && |path| > LenBeforeBody()
      modifies this`path
      ensures Valid() && path <= old(path) && |path| < |old(path)|
      ensures old(Remaining()) == Remaining() + Opt(r)
    {
      hide Body;
      var size;
      size, r := ParseNextComponentBack();
      if HeadLeft() { HeadAfterCut(path, |path| - size); }
      path := path[..|path| - size];
    }
  }

  // ---- interleavings ---------------------------------------------------------------------------------

  function Reverse(s: seq<Component>): seq<Component> {
    if s == [] then [] else Reverse(s[1..]) + [s[0]]
  }

  lemma {:induction false} ReverseSnoc(s: seq<Component>, c: Component)
    ensures Reverse(s + [c]) == [c] + Reverse(s)
  {
    if s == [] {
      assert s + [c] == [c] && [c][1..] == [];
    } else {
      ReverseSnoc(s[1..], c);
      assert (s + [c])[0] == s[0] && (s + [c])[1..] == s[1..] + [c];
      assert [c] + Reverse(s[1..]) + [s[0]] == [c] + (Reverse(s[1..]) + [s[0]]);
    }
  }

  /** Main result: calling `Next` (true) and `NextBack` (false) in any order, the components that came
      from the front, those still to come, and those that came from the back in reverse order
      make up the components of the path. */
  method Interleave(p: Bytes, calls: seq<bool>) returns (fronts: seq<Component>, backs: seq<Component>,
      left: seq<Component>)
    ensures fronts + left + Reverse(backs) == Components(p)
    ensures |fronts| + |backs| < |calls| ==> left == []
  {
    var it := new Iterator(p);
    fronts, backs := [], [];
    var i := 0;
    while i < |calls|
      invariant i <= |calls| && it.Valid() && fresh(it)
      invariant fronts + it.Remaining() + Reverse(backs) == Components(p)
      invariant |fronts| + |backs| <= i
      invariant |fronts| + |backs| < i ==> it.Remaining() == []
    {
      if calls[i] {
        var c := it.Next();
        if c.Some? {
          Assoc(fronts, [c.value], it.Remaining());
          fronts := fronts + [c.value];
        }
      } else {
        var c := it.NextBack();
        if c.Some? {
          ReverseSnoc(backs, c.value);
          Assoc(fronts, it.Remaining(), [c.value]);
          Assoc(fronts + it.Remaining(), [c.value], Reverse(backs));
          backs := backs + [c.value];
        }
      }
      i := i + 1;
    }
    left := it.Collect();
  }

  function ParseSingleComponent(piece: Bytes): (r: Option<Component>)
    ensures Single(piece) == Opt(r)
  {
    if piece == "." then None
    else if piece == ".." then Some(ParentDir)
    else if piece == [] then None
    else Some(Normal(piece))
  }
}
