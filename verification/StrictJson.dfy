/** The duplicate-key walker of internal/strictjson/strictjson.go over the token stream of
    encoding/json, against the recursive meaning of "no object repeats a key". */
module StrictJson {
  import opened Wrappers

  datatype Value =
    | Scalar
    | Str(text: string)
    | Arr(items: seq<Value>)
    | Obj(members: seq<Member>)
  datatype Member = Member(key: string, value: Value)

  /** What the decoder hands out: commas and colons are consumed silently. */
  datatype Token = OpenObject | OpenArray | Close | Text(text: string) | Literal

  function Tokens(v: Value): seq<Token>
    decreases v, 1
  {
    match v
    case Scalar => [Literal]
    case Str(text) => [Text(text)]
    case Arr(items) => [OpenArray] + ItemTokens(items) + [Close]
    case Obj(members) => [OpenObject] + MemberTokens(members) + [Close]
  }

  function ItemTokens(items: seq<Value>): seq<Token>
    decreases items, 0
  {
    if items == [] then [] else Tokens(items[0]) + ItemTokens(items[1..])
  }

  function MemberTokens(members: seq<Member>): seq<Token>
    decreases members, 0
  {
    if members == [] then []
    else [Text(members[0].key)] + Tokens(members[0].value) + MemberTokens(members[1..])
  }

  /** No object at any depth repeats a key. */
  ghost predicate Unique(v: Value) {
    match v
    case Scalar => true
    case Str(_) => true
    case Arr(items) => forall item :: item in items ==> Unique(item)
    case Obj(members) =>
      DistinctKeys(members) && forall m :: m in members ==> Unique(m.value)
  }

  ghost predicate DistinctKeys(members: seq<Member>) {
    forall i, j :: 0 <= i < j < |members| ==> members[i].key != members[j].key
  }

  // ---- the walker ---------------------------------------------------------------------

  datatype Frame = Frame(keys: Option<set<string>>, expectKey: bool)

  datatype Verdict = Accepted | DuplicateKey(key: string) | KeyNotString | StackUnderflow

  /** Where a complete value may start: a fresh document, an array, or behind a key. */
  predicate AtValue(stack: seq<Frame>) {
    stack == [] || !stack[|stack| - 1].expectKey
  }

  /** The stack once a whole value has gone by: an object expects a key again. */
  function AfterValue(stack: seq<Frame>): seq<Frame> {
    if stack == [] then stack else
      var top := stack[|stack| - 1];
      stack[|stack| - 1 := top.(expectKey := top.keys.Some?)]
  }

  /** One token of the walk: the next stack, or the verdict that ends it. */
  datatype Outcome = Continue(stack: seq<Frame>) | Stop(verdict: Verdict)

  function Step(stack: seq<Frame>, token: Token): Outcome {
    match token
    case OpenObject => Continue(stack + [Frame(Some({}), true)])
    case OpenArray => Continue(stack + [Frame(None, false)])
    case Close => if stack == [] then Stop(StackUnderflow) else Continue(AfterValue(stack[..|stack| - 1]))
    case _ => if stack == [] then Continue(stack) else Note(stack, token)
  }

  function Note(stack: seq<Frame>, token: Token): Outcome
    requires stack != []
  {
    var top := stack[|stack| - 1];
    if top.keys.None? then Continue(stack)
    else if !top.expectKey then Continue(stack[|stack| - 1 := top.(expectKey := true)])
    else if !token.Text? then Stop(KeyNotString)
    else if token.text in top.keys.value then Stop(DuplicateKey(token.text))
    else Continue(stack[|stack| - 1 := Frame(Some(top.keys.value + {token.text}), false)])
  }

  function Walk(stack: seq<Frame>, tokens: seq<Token>): Verdict
    decreases |tokens|
  {
    if tokens == [] then Accepted else
      var next := Step(stack, tokens[0]);
      if next.Continue? then Walk(next.stack, tokens[1..]) else next.verdict
  }

  lemma WalkStep(stack: seq<Frame>, token: Token, rest: seq<Token>)
    ensures Step(stack, token).Continue? ==> Walk(stack, [token] + rest) == Walk(Step(stack, token).stack, rest)
    ensures Step(stack, token).Stop? ==> Walk(stack, [token] + rest) == Step(stack, token).verdict
  {
    assert ([token] + rest)[1..] == rest;
  }

  // ---- the walk of well-formed streams ------------------------------------------------

  lemma WalkOpen(stack: seq<Frame>, open: Token, body: seq<Token>, rest: seq<Token>)
    requires Step(stack, open).Continue?
    ensures Walk(stack, [open] + body + [Close] + rest) == Walk(Step(stack, open).stack, body + ([Close] + rest))
  {
    WalkStep(stack, open, body + ([Close] + rest));
    assert [open] + body + [Close] + rest == [open] + (body + ([Close] + rest));
  }

  lemma WalkClose(stack: seq<Frame>, top: Frame, rest: seq<Token>)
    ensures Walk(stack + [top], [Close] + rest) == Walk(AfterValue(stack), rest)
  {
    WalkStep(stack + [top], Close, rest);
    assert (stack + [top])[..|stack|] == stack;
  }

  /** Walking one value either leaves the stack as if the value were a single scalar, or
      stops at a repeated key. */
  lemma {:induction false} WalkValue(stack: seq<Frame>, v: Value, rest: seq<Token>)
    requires AtValue(stack)
    ensures Unique(v) ==> Walk(stack, Tokens(v) + rest) == Walk(AfterValue(stack), rest)
    ensures !Unique(v) ==> Walk(stack, Tokens(v) + rest).DuplicateKey?
    decreases v, 1
  {
    match v
    case Scalar =>
      WalkStep(stack, Literal, rest);
      assert Step(stack, Literal) == Continue(AfterValue(stack));
    case Str(text) =>
      WalkStep(stack, Text(text), rest);
      assert Step(stack, Text(text)) == Continue(AfterValue(stack));
    case Arr(items) =>
      WalkOpen(stack, OpenArray, ItemTokens(items), rest);
      assert AfterValue(stack + [Frame(None, false)]) == stack + [Frame(None, false)];
      WalkItems(stack + [Frame(None, false)], items, [Close] + rest);
      WalkClose(stack, Frame(None, false), rest);
    case Obj(members) =>
      WalkOpen(stack, OpenObject, MemberTokens(members), rest);
      WalkMembers(stack, {}, members, [Close] + rest);
      FreshKeysIffDistinct({}, members);
      WalkClose(stack, Frame(Some(KeySet({}, members)), true), rest);
  }

  lemma {:induction false} WalkItems(stack: seq<Frame>, items: seq<Value>, rest: seq<Token>)
    requires AtValue(stack) && AfterValue(stack) == stack
    ensures (forall item :: item in items ==> Unique(item)) ==>
              Walk(stack, ItemTokens(items) + rest) == Walk(stack, rest)
    ensures !(forall item :: item in items ==> Unique(item)) ==> Walk(stack, ItemTokens(items) + rest).DuplicateKey?
    decreases items, 0
  {
    if items == [] {
      assert ItemTokens(items) + rest == rest;
    } else {
      assert ItemTokens(items) + rest == Tokens(items[0]) + (ItemTokens(items[1..]) + rest);
      assert items == [items[0]] + items[1..];
      hide Walk, Tokens, ItemTokens, Unique;
      WalkValue(stack, items[0], ItemTokens(items[1..]) + rest);
      WalkItems(stack, items[1..], rest);
    }
  }

  /** The members left bring only keys that are new to the frame. */
  predicate FreshKeys(keys: set<string>, members: seq<Member>)
    decreases |members|
  {
    members == [] || (members[0].key !in keys && FreshKeys(keys + {members[0].key}, members[1..]))
  }

  function KeySet(keys: set<string>, members: seq<Member>): set<string>
    decreases |members|
  {
    if members == [] then keys else KeySet(keys + {members[0].key}, members[1..])
  }

  lemma DistinctKeysCons(first: Member, rest: seq<Member>)
    ensures DistinctKeys([first] + rest) <==> (DistinctKeys(rest) && forall m :: m in rest ==> m.key != first.key)
  {
    var all := [first] + rest;
    if DistinctKeys(all) {
      forall i, j | 0 <= i < j < |rest| ensures rest[i].key != rest[j].key {
        assert all[i + 1] == rest[i] && all[j + 1] == rest[j];
      }
      forall m | m in rest ensures m.key != first.key {
        var j :| 0 <= j < |rest| && rest[j] == m;
        assert all[0] == first && all[j + 1] == m;
      }
    }
    if DistinctKeys(rest) && forall m :: m in rest ==> m.key != first.key {
      forall i, j | 0 <= i < j < |all| ensures all[i].key != all[j].key {
        assert all[j] == rest[j - 1] && rest[j - 1] in rest;
        assert i > 0 ==> all[i] == rest[i - 1];
      }
    }
  }

  lemma {:induction false} FreshKeysIffDistinct(keys: set<string>, members: seq<Member>)
    ensures FreshKeys(keys, members) <==> (DistinctKeys(members) && forall m :: m in members ==> m.key !in keys)
    decreases |members|
  {
    if members != [] {
      var first, rest := members[0], members[1..];
      assert members == [first] + rest;
      DistinctKeysCons(first, rest);
      FreshKeysIffDistinct(keys + {first.key}, rest);
    }
  }

  /** The members of an open object, given the keys its frame already holds. */
  lemma {:induction false} WalkMembers(stack: seq<Frame>, keys: set<string>, members: seq<Member>, rest: seq<Token>)
    ensures FreshKeys(keys, members) && (forall m :: m in members ==> Unique(m.value)) ==>
              Walk(stack + [Frame(Some(keys), true)], MemberTokens(members) + rest)
              == Walk(stack + [Frame(Some(KeySet(keys, members)), true)], rest)
    ensures !(FreshKeys(keys, members) && (forall m :: m in members ==> Unique(m.value))) ==>
              Walk(stack + [Frame(Some(keys), true)], MemberTokens(members) + rest).DuplicateKey?
    decreases members, 0
  {
    if members == [] {
      assert MemberTokens(members) + rest == rest;
    } else {
      var open := stack + [Frame(Some(keys), true)];
      var first, later := members[0], MemberTokens(members[1..]) + rest;
      assert members == [first] + members[1..];
      assert MemberTokens(members) + rest == [Text(first.key)] + (Tokens(first.value) + later);
      WalkStep(open, Text(first.key), Tokens(first.value) + later);
      if first.key !in keys {
        var behind := stack + [Frame(Some(keys + {first.key}), false)];
        assert Step(open, Text(first.key)) == Continue(behind);
        WalkValue(behind, first.value, later);
        assert AfterValue(behind) == stack + [Frame(Some(keys + {first.key}), true)];
        WalkMembers(stack, keys + {first.key}, members[1..], rest);
      }
    }
  }

  /** The walker accepts a stream of documents if and only if no object in any of them
      repeats a key, and a rejected stream is rejected for exactly that reason. */
  lemma AcceptsIffUnique(documents: seq<Value>)
    ensures Walk([], ItemTokens(documents)) == Accepted <==> forall v :: v in documents ==> Unique(v)
    ensures Walk([], ItemTokens(documents)) == Accepted || Walk([], ItemTokens(documents)).DuplicateKey?
  {
    WalkItems([], documents, []);
    assert ItemTokens(documents) + [] == ItemTokens(documents);
  }

  lemma {:induction false} ErrorsAreFinal(stack: seq<Frame>, seen: seq<Token>, rest: seq<Token>)
    requires Walk(stack, seen) != Accepted
    ensures Walk(stack, seen + rest) == Walk(stack, seen)
    decreases |seen|
  {
    assert (seen + rest)[1..] == seen[1..] + rest;
    if Step(stack, seen[0]).Continue? {
      ErrorsAreFinal(Step(stack, seen[0]).stack, seen[1..], rest);
    }
  }

  /** The decoder may run out of input inside a document. On what it produced until then
      the walker never pops an empty stack or meets a key that is not a string. */
  lemma TruncationIsHarmless(documents: seq<Value>, seen: seq<Token>)
    requires seen <= ItemTokens(documents)
    ensures Walk([], seen) == Accepted || Walk([], seen).DuplicateKey?
    ensures (forall v :: v in documents ==> Unique(v)) ==> Walk([], seen) == Accepted
  {
    AcceptsIffUnique(documents);
    if Walk([], seen) != Accepted {
      ErrorsAreFinal([], seen, ItemTokens(documents)[|seen|..]);
      assert seen + ItemTokens(documents)[|seen|..] == ItemTokens(documents);
    }
  }

  /** rejectDuplicateKeys with its stack updated in place. */
  class Walker {
    var stack: seq<Frame>

    constructor ()
      ensures stack == []
    {
      stack := [];
    }

    /** push: opens a container, or closes the innermost one and restores the parent's
        key/value alternation. */
    method Push(token: Token)
      requires token.OpenObject? || token.OpenArray? || (token.Close? && stack != [])
      modifies this
      ensures Step(old(stack), token) == Continue(stack)
    {
      if token.OpenObject? {
        stack := stack + [Frame(Some({}), true)];
      } else if token.OpenArray? {
        stack := stack + [Frame(None, false)];
      } else {
        stack := stack[..|stack| - 1];
        if |stack| > 0 {
          var top := stack[|stack| - 1];
          stack := stack[|stack| - 1 := top.(expectKey := top.keys.Some?)];
        }
      }
    }

    /** note on the innermost frame. */
    method NoteTop(token: Token) returns (failure: Option<Verdict>)
      requires stack != []
      modifies this
      ensures failure.None? ==> Note(old(stack), token) == Continue(stack)
      ensures failure.Some? ==> Note(old(stack), token) == Stop(failure.value) && stack == old(stack)
    {
      var top := stack[|stack| - 1];
      if top.keys.None? {
        return None;
      }
      if !top.expectKey {
        stack := stack[|stack| - 1 := top.(expectKey := true)];
        return None;
      }
      if !token.Text? {
        return Some(KeyNotString);
      }
      if token.text in top.keys.value {
        return Some(DuplicateKey(token.text));
      }
      stack := stack[|stack| - 1 := Frame(Some(top.keys.value + {token.text}), false)];
      return None;
    }
  }

  method RejectDuplicateKeys(tokens: seq<Token>) returns (verdict: Verdict)
    ensures verdict == Walk([], tokens)
  {
    var walker := new Walker();
    for k := 0 to |tokens|
      invariant fresh(walker)
      invariant Walk([], tokens) == Walk(walker.stack, tokens[k..])
    {
      assert tokens[k..] == [tokens[k]] + tokens[k + 1..];
      WalkStep(walker.stack, tokens[k], tokens[k + 1..]);
      if tokens[k].Close? && walker.stack == [] {
        return StackUnderflow;
      }
      if tokens[k].OpenObject? || tokens[k].OpenArray? || tokens[k].Close? {
        walker.Push(tokens[k]);
      } else if walker.stack != [] {
        var failure := walker.NoteTop(tokens[k]);
        if failure.Some? {
          return failure.value;
        }
      }
    }
    return Accepted;
  }
}
