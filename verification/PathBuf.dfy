/** Owned paths: pushing and popping (lib/path/src/lib.rs). */
module PathBuf {
  import opened Wrappers
  import opened PathComponents

  // ---- joining -----------------------------------------------------------------------------------

  /** What `_push` makes of a path p and a path q. */
  function Joined(p: Bytes, q: Bytes): Bytes {
    if HasRoot(q) then q
    else if p != [] && p[|p| - 1] != SEP then p + [SEP] + q
    else p + q
  }

  /** Main result: an absolute path replaces what was there; a relative one adds its components, but
      a leading "." is kept only if it comes first. */
  lemma {:induction false} JoinedComponents(p: Bytes, q: Bytes)
    ensures Components(Joined(p, q))
         == if HasRoot(q) || p == [] then Components(q) else Components(p) + Body(q)
  {
    hide Body;
    if !HasRoot(q) {
      if p == [] {
        assert p + q == q;
      } else if p[|p| - 1] != SEP {
        BodyAt(p, q);
        assert Head(p + [SEP] + q) == Head(p);
        assert Head(p) + (Body(p) + Body(q)) == Head(p) + Body(p) + Body(q);
      } else {
        var init := p[..|p| - 1];
        assert p + q == init + [SEP] + q;
        assert p == init + [SEP] + [];
        BodyAt(init, q);
        BodyAt(init, []);
        BodyEmpty();
        assert Head(p + q) == Head(p);
        assert Head(p) + (Body(p) + Body(q)) == Head(p) + Body(p) + Body(q);
      }
    }
  }

  /** Main result: a join adds no piece between slashes of its own: the pieces are those of both paths, one
      slash at the end of the first not counted. */
  lemma {:induction false} JoinedPieces(p: Bytes, q: Bytes)
    ensures HasRoot(q) || p == [] ==> Joined(p, q) == q
    ensures !HasRoot(q) && p != [] ==>
              Split(Joined(p, q)) == Split(if p[|p| - 1] == SEP then p[..|p| - 1] else p) + Split(q)
  {
    if !HasRoot(q) && p != [] {
      var init := if p[|p| - 1] == SEP then p[..|p| - 1] else p;
      assert Joined(p, q) == init + [SEP] + q;
      SplitAt(init, q);
    }
  }

  // ---- rebuilding a path from its components -------------------------------------------------------

  function Text(c: Component): Bytes {
    match c
    case RootDir => "/"
    case CurDir => "."
    case ParentDir => ".."
    case Normal(name) => name
  }

  /** Pushing the components one by one onto the empty path. */
  function JoinAll(cs: seq<Component>): Bytes {
    if cs == [] then [] else Joined(JoinAll(cs[..|cs| - 1]), Text(cs[|cs| - 1]))
  }

  /** A component that the body of a path can have. */
  predicate InBodyOk(c: Component) {
    c == ParentDir || (c.Normal? && c.name != [] && c.name != "." && c.name != ".." && NoSep(c.name))
  }

  lemma {:induction false} PiecesHaveNoSep(p: Bytes)
    ensures forall piece :: piece in Split(p) ==> NoSep(piece)
  {
    if p != [] {
      PiecesHaveNoSep(p[1..]);
      var rest := Split(p[1..]);
      assert NoSep(rest[0]);
      forall piece | piece in Split(p)
        ensures NoSep(piece)
      {
        if p[0] != SEP && piece != [p[0]] + rest[0] { assert piece in rest; }
      }
    }
  }

  lemma {:induction false} SinglesOk(pieces: seq<Bytes>)
    requires forall piece :: piece in pieces ==> NoSep(piece)
    ensures forall c :: c in Singles(pieces) ==> InBodyOk(c)
  {
    if pieces != [] {
      assert pieces[0] in pieces;
      SinglesOk(pieces[1..]);
    }
  }

  lemma {:induction false} BodyOk(p: Bytes)
    ensures forall c :: c in Body(p) ==> InBodyOk(c)
  {
    PiecesHaveNoSep(p);
    SinglesOk(Split(p));
  }

  lemma {:induction false} TextOfBody(c: Component)
    requires InBodyOk(c)
    ensures Text(c) != [] && Body(Text(c)) == [c] && Head(Text(c)) == []
  {
    BodyNoSep(Text(c));
  }

  lemma {:induction false} TextOfHead(c: Component)
    requires c == RootDir || c == CurDir
    ensures Components(Text(c)) == [c]
  {
    BodyOfHead(Text(c));
  }

  /** Main result: pushing a path's components one by one onto the empty path rebuilds a path with
      exactly these components. */
  lemma {:induction false} PushingComponentsRebuilds(p: Bytes)
    ensures Components(JoinAll(Components(p))) == Components(p)
  {
    var cs := Components(p);
    BodyOk(p);
    forall i | 0 < i < |cs|
      ensures InBodyOk(cs[i])
    {
      assert cs[i] == Body(p)[i - |Head(p)|] && cs[i] in Body(p);
    }
    if |cs| > 0 && Head(p) == [] {
      assert cs[0] == Body(p)[0] && cs[0] in Body(p);
    }
    Rebuilds(cs);
  }

  lemma {:induction false} Rebuilds(cs: seq<Component>)
    requires forall i :: 0 < i < |cs| ==> InBodyOk(cs[i])
    requires |cs| > 0 ==> InBodyOk(cs[0]) || cs[0] == RootDir || cs[0] == CurDir
    ensures Components(JoinAll(cs)) == cs
    ensures cs != [] ==> JoinAll(cs) != []
  {
    if cs == [] {
      BodyEmpty();
    } else {
      var init, last := cs[..|cs| - 1], cs[|cs| - 1];
      Rebuilds(init);
      assert cs == init + [last];
      PushOne(JoinAll(init), last);
    }
  }

  lemma {:induction false} PushOne(q: Bytes, c: Component)
    requires InBodyOk(c) || (q == [] && (c == RootDir || c == CurDir))
    ensures Components(Joined(q, Text(c))) == Components(q) + [c]
    ensures Joined(q, Text(c)) != []
  {
    JoinedComponents(q, Text(c));
    if InBodyOk(c) { TextOfBody(c); } else { TextOfHead(c); }
    if q == [] { BodyEmpty(); }
  }

  // ---- parent and file name --------------------------------------------------------------------------

  /** The path without its last component; none for the root or the empty path. */
  method Parent(p: Bytes) returns (r: Option<Bytes>)
    ensures r.Some? <==> Components(p) != [] && Components(p)[|Components(p)| - 1] != RootDir
    ensures r.Some? ==> r.value <= p && Components(r.value) == Components(p)[..|Components(p)| - 1]
    ensures r.Some? ==> EndsNamed(r.value, |Head(r.value)|)
  {
    var comps := new Iterator(p);
    var comp := comps.NextBack();
    if comp.Some? && comp.value != RootDir {
      var rest := comps.AsPath();
      return Some(rest);
    }
    return None;
  }

  /** The last component, if it is a name. */
  method FileName(p: Bytes) returns (r: Option<Bytes>)
    ensures r.Some? <==> Components(p) != [] && Components(p)[|Components(p)| - 1].Normal?
    ensures r.Some? ==> Components(p)[|Components(p)| - 1] == Normal(r.value)
  {
    var comps := new Iterator(p);
    var comp := comps.NextBack();
    if comp.Some? && comp.value.Normal? {
      return Some(comp.value.name);
    }
    return None;
  }

  // ---- the class -------------------------------------------------------------------------------------

  class PathBuf {
    var inner: Bytes

    constructor ()
      ensures inner == []
    {
      inner := [];
    }

    method Push(path: Bytes)
      modifies this
      ensures inner == Joined(old(inner), path)
    {
      var needSep := inner != [] && inner[|inner| - 1] != SEP;
      if HasRoot(path) {
        inner := [];
      } else if needSep {
        inner := inner + [SEP];
      }
      inner := inner + path;
    }

    /** Drops the last component, unless there is none or it is the root. */
    method Pop() returns (popped: bool)
      modifies this
      ensures var was := Components(old(inner)); popped <==> was != [] && was[|was| - 1] != RootDir
      ensures popped ==> Components(inner) == Components(old(inner))[..|Components(old(inner))| - 1]
      ensures popped ==> inner <= old(inner) && EndsNamed(inner, |Head(inner)|)
      ensures !popped ==> inner == old(inner)
    {
      var parent := Parent(inner);
      match parent
      case Some(p) =>
        inner := inner[..|p|];
        assert inner == p;
        return true;
      case None =>
        return false;
    }
  }
}
