/**
 * The whitespace surface both formatting visitors work on: a Space is the
 * whitespace and comments in front of (or after) a tree element, and a
 * Cursor is the chain of frames from the element being visited up to the
 * root, each frame carrying the message bag visitors use to pass state.
 */
module Formatting {
  import opened Wrappers

  /** A comment with the whitespace that follows it. Only text comments have text the formatter rewrites. */
  datatype Comment =
    | TextComment(text: string, multiline: bool, suffix: string)
    | DocComment(suffix: string)

  datatype Space = Space(whitespace: string, comments: seq<Comment>)

  /** Space.getLastWhitespace: the suffix of the last comment, or the whitespace when there is no comment. */
  function LastWhitespace(s: Space): (r: string)
  {
    if s.comments == [] then s.whitespace else s.comments[|s.comments| - 1].suffix
  }

  predicate HasNewline(s: string) { '\n' in s }

  /** The Space.Location values the formatters distinguish; every other location is OtherLocation. */
  datatype Location =
    | BlockPrefix | BlockEnd | NewArrayInitializerSuffix | CatchPrefix | TryFinally | ElsePrefix
    | Extends | CompilationUnitPrefix | ClassDeclarationPrefix | OtherLocation

  datatype IndentType = Align | Indent | ContinuationIndent

  /** The J tree classes the formatters test for; every other class is OtherNode. */
  datatype NodeKind =
    | CompilationUnit | Package | Import | Label | DoWhileLoop | ArrayDimension | ClassDeclaration
    | Block | If | Else | ForLoop | ForEachLoop | WhileLoop | Case | EnumValueSet
    | Annotation | OtherNode

  /** The value a cursor frame points at: a tree node (with its id) or one of the padding wrappers. */
  datatype Value =
    | Node(kind: NodeKind, id: nat)
    | RightPadded
    | LeftPadded
    | Container

  datatype Message =
    | IntMessage(n: int)
    | BoolMessage(b: bool)
    | IndentTypeMessage(indentType: IndentType)
    | LocationMessage(location: Location)

  datatype Frame = Frame(value: Value, messages: map<string, Message>)

  predicate IsNode(v: Value, kind: NodeKind) { v.Node? && v.kind == kind }

  /** The index of the nearest frame (0 is the current one) carrying `key`. */
  function NearestIndex(frames: seq<Frame>, key: string): (r: Option<nat>)
    ensures r.Some? ==> r.value < |frames| && key in frames[r.value].messages
    ensures r.Some? ==> forall i :: 0 <= i < r.value ==> key !in frames[i].messages
    ensures r.None? ==> forall i :: 0 <= i < |frames| ==> key !in frames[i].messages
    decreases |frames|
  {
    if frames == [] then None
    else if key in frames[0].messages then Some(0)
    else
      var r := NearestIndex(frames[1..], key);
      if r.Some? then Some(r.value + 1) else None
  }

  /** Cursor.getNearestMessage: the message of the nearest frame carrying the key. */
  function NearestMessage(frames: seq<Frame>, key: string): (r: Option<Message>)
    ensures r.Some? <==> exists i :: 0 <= i < |frames| && key in frames[i].messages
    ensures r.Some? ==> exists i :: 0 <= i < |frames| && key in frames[i].messages && frames[i].messages[key] == r.value
  {
    var k := NearestIndex(frames, key);
    if k.Some? then Some(frames[k.value].messages[key]) else None
  }

  /** Pushing frames for the elements below keeps every message of the chain reachable. */
  lemma {:induction false} NearestMessagePush(top: seq<Frame>, frames: seq<Frame>, key: string)
    requires NearestMessage(frames, key).Some?
    ensures NearestMessage(top + frames, key).Some?
  {
    var i :| 0 <= i < |frames| && key in frames[i].messages;
    assert (top + frames)[|top| + i] == frames[i];
  }

  /** The index of the nearest frame whose value is a node of `kind`. */
  function FirstEnclosing(frames: seq<Frame>, kind: NodeKind): (r: Option<nat>)
    ensures r.Some? ==> r.value < |frames| && IsNode(frames[r.value].value, kind)
    ensures r.Some? ==> forall i :: 0 <= i < r.value ==> !IsNode(frames[i].value, kind)
    ensures r.None? ==> forall i :: 0 <= i < |frames| ==> !IsNode(frames[i].value, kind)
    decreases |frames|
  {
    if frames == [] then None
    else if IsNode(frames[0].value, kind) then Some(0)
    else
      var r := FirstEnclosing(frames[1..], kind);
      if r.Some? then Some(r.value + 1) else None
  }

  /** Frame `i` with `key` set to `m`. */
  function PutAt(frames: seq<Frame>, i: nat, key: string, m: Message): (r: seq<Frame>)
    requires i < |frames|
    ensures |r| == |frames| && r[i].messages == frames[i].messages[key := m]
    ensures forall j :: 0 <= j < |r| ==> r[j].value == frames[j].value
    ensures forall j :: 0 <= j < |r| && j != i ==> r[j] == frames[j]
  {
    frames[i := frames[i].(messages := frames[i].messages[key := m])]
  }

  /** The chain with `key` removed from the nearest frame carrying it. */
  function RemoveNearest(frames: seq<Frame>, key: string): (r: seq<Frame>)
    ensures |r| == |frames| && forall j :: 0 <= j < |r| ==> r[j].value == frames[j].value
    ensures NearestIndex(frames, key).None? ==> r == frames
    ensures NearestIndex(frames, key).Some? ==>
      var k := NearestIndex(frames, key).value;
      r[k].messages == frames[k].messages - {key} && forall j :: 0 <= j < |r| && j != k ==> r[j] == frames[j]
  {
    var k := NearestIndex(frames, key);
    if k.None? then frames
    else frames[k.value := frames[k.value].(messages := frames[k.value].messages - {key})]
  }

  /**
   * A cursor: frames[0] is the element being visited, frames[1] its parent and
   * so on up to the root.
   */
  class Cursor {
    var frames: seq<Frame>

    constructor (chain: seq<Frame>)
      ensures frames == chain
    {
      frames := chain;
    }

    /** Cursor.putMessage on the current frame, or on the `i`-th ancestor when called through getParent. */
    method PutMessageAt(i: nat, key: string, m: Message)
      requires i < |frames|
      modifies this
      ensures frames == PutAt(old(frames), i, key, m)
    {
      frames := PutAt(frames, i, key, m);
    }

    /** Cursor.pollNearestMessage: the nearest message for `key`, removed from its frame. */
    method PollNearestMessage(key: string) returns (m: Option<Message>)
      modifies this
      ensures m == NearestMessage(old(frames), key)
      ensures frames == RemoveNearest(old(frames), key)
    {
      m := NearestMessage(frames, key);
      frames := RemoveNearest(frames, key);
    }

    /** Cursor.putMessageOnFirstEnclosing: the message goes on the nearest frame holding a node of `kind`, if any. */
    method PutMessageOnFirstEnclosing(kind: NodeKind, key: string, m: Message)
      modifies this
      ensures FirstEnclosing(old(frames), kind).None? ==> frames == old(frames)
      ensures FirstEnclosing(old(frames), kind).Some? ==>
        frames == PutAt(old(frames), FirstEnclosing(old(frames), kind).value, key, m)
    {
      var k := FirstEnclosing(frames, kind);
      if k.Some? {
        frames := PutAt(frames, k.value, key, m);
      }
    }
  }

  // ---------------------------------------------------------------------------
  // Stop-after, shared verbatim by both formatting visitors

  const StopKey := "stop"

  /**
   * postVisit: when `tree` is the stop-after tree (Tree.isScope compares ids),
   * a `stop` message goes on the enclosing compilation unit's frame.
   */
  method PostVisit(cursor: Cursor, stopAfter: Option<nat>, tree: Value)
    modifies cursor
    ensures !(stopAfter.Some? && tree.Node? && tree.id == stopAfter.value) ==> cursor.frames == old(cursor.frames)
    ensures stopAfter.Some? && tree.Node? && tree.id == stopAfter.value ==>
      (FirstEnclosing(old(cursor.frames), CompilationUnit).None? ==> cursor.frames == old(cursor.frames))
      && (FirstEnclosing(old(cursor.frames), CompilationUnit).Some? ==>
            cursor.frames == PutAt(old(cursor.frames), FirstEnclosing(old(cursor.frames), CompilationUnit).value,
                                   StopKey, BoolMessage(true)))
  {
    if stopAfter.Some? && tree.Node? && tree.id == stopAfter.value {
      cursor.PutMessageOnFirstEnclosing(CompilationUnit, StopKey, BoolMessage(true));
    }
  }

  /** visit: with a `stop` message anywhere up the chain the tree is returned as given; otherwise it is traversed. */
  function VisitGuard<T>(frames: seq<Frame>, tree: T, traverse: T -> T): (r: T)
  {
    if NearestMessage(frames, StopKey).Some? then tree else traverse(tree)
  }

  /**
   * Once the stop message sits on the compilation unit's frame, every later
   * visit below that compilation unit returns its input unchanged.
   */
  lemma StopIsSticky<T>(frames: seq<Frame>, top: seq<Frame>, stopAfter: nat, tree: T, traverse: T -> T)
    requires FirstEnclosing(frames, CompilationUnit).Some?
    ensures var marked := PutAt(frames, FirstEnclosing(frames, CompilationUnit).value, StopKey, BoolMessage(true));
      VisitGuard(top + marked, tree, traverse) == tree
  {
    var k := FirstEnclosing(frames, CompilationUnit).value;
    var marked := PutAt(frames, k, StopKey, BoolMessage(true));
    assert StopKey in marked[k].messages;
    NearestMessagePush(top, marked, StopKey);
  }
}
