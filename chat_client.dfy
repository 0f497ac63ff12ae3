/**
 * The chat page's pure logic: the `@` mention autocomplete (where a mention
 * is being typed, which members to suggest, how a choice is spliced into
 * the text) and the checks made on an image file before it is read.
 * Rendering, hooks, timers and the socket are not part of this module.
 */
module ChatClient {
  import opened Wrappers
  import opened Text
  import opened Handle
  import opened Mention
  import opened ImagePayload

  /** `mentionState`: the index of the `@` being completed and the text
      typed after it, or no mention at all. */
  datatype MentionState = MentionState(at: Option<nat>, query: string)

  const Closed: MentionState := MentionState(None, "")

  /** `selectionStart ?? value.length`, clamped as `slice` clamps it. */
  function Cursor(value: string, selectionStart: Option<nat>): nat {
    var c := if selectionStart.Some? then selectionStart.value else |value|;
    if c <= |value| then c else |value|
  }

  /** `onTextChange`: the last `@` before the cursor opens a mention when it
      starts the text or follows whitespace and the text between it and the
      cursor holds no space and no line break. */
  function OnTextChange(value: string, selectionStart: Option<nat>): MentionState {
    var before := value[..Cursor(value, selectionStart)];
    match LastIndexOf(before, '@')
    case None => Closed
    case Some(at) =>
      var prev := if at > 0 then before[at - 1] else ' ';
      if !IsSpace(prev) then Closed
      else
        var query := before[at + 1..];
        // `includes` of a one-character string is membership (Text.ContainsChar)
        if ' ' in query || '\n' in query then Closed
        else MentionState(Some(at), query)
  }

  /** The `@` at index `i` opens the mention being typed at cursor `cur`. */
  predicate OpensAt(value: string, cur: nat, i: nat) {
    && i < cur <= |value|
    && value[i] == '@'
    && (i == 0 || IsSpace(value[i - 1]))
    && forall j :: i < j < cur ==> value[j] != '@' && value[j] != ' ' && value[j] != '\n'
  }

  /** A mention is open at `i` exactly when the `@` there opens one, and its
      query is then the text from after the `@` up to the cursor; otherwise
      the state is closed. */
  lemma OnTextChangeSpec(value: string, selectionStart: Option<nat>)
    ensures var st := OnTextChange(value, selectionStart);
            var cur := Cursor(value, selectionStart);
            && (st.at.None? ==> st == Closed)
            && (forall i: nat :: st.at == Some(i) <==> OpensAt(value, cur, i))
            && (st.at.Some? ==> st.at.value < cur && st.query == value[st.at.value + 1..cur])
  {
    var st := OnTextChange(value, selectionStart);
    forall i: nat
      ensures st.at == Some(i) <==> OpensAt(value, Cursor(value, selectionStart), i)
    {
      OnTextChangeAt(value, selectionStart, i);
    }
    if st.at.Some? {
      OnTextChangeAt(value, selectionStart, st.at.value);
    }
  }

  /** The same, for one index `i`. */
  lemma OnTextChangeAt(value: string, selectionStart: Option<nat>, i: nat)
    ensures var st := OnTextChange(value, selectionStart);
            var cur := Cursor(value, selectionStart);
            && (st.at.None? ==> st == Closed)
            && (st.at == Some(i) <==> OpensAt(value, cur, i))
            && (st.at == Some(i) ==> i < cur && st.query == value[i + 1..cur])
  {
    var cur := Cursor(value, selectionStart);
    var before := value[..cur];
    if i < cur {
      assert value[i] == before[i];
    }
    match LastIndexOf(before, '@')
    case None =>
    case Some(at) =>
      var query := before[at + 1..];
      assert query == value[at + 1..cur];
      if at < i < cur {
        assert value[i] != '@';
      } else if i < at {
        assert value[at] == before[at];
      } else if i == at {
        forall j | at < j < cur
          ensures value[j] != '@'
        {
          assert value[j] == before[j];
        }
        LastAtOpens(value, cur, at);
        if at > 0 {
          assert before[at - 1] == value[at - 1];
        }
      }
  }

  /** When `at` holds the last `@` before the cursor, it opens a mention
      exactly when it starts the text or follows whitespace and no space or
      line break comes after it. */
  lemma LastAtOpens(value: string, cur: nat, at: nat)
    requires at < cur <= |value| && value[at] == '@'
    requires forall j :: at < j < cur ==> value[j] != '@'
    ensures OpensAt(value, cur, at) <==>
              (at == 0 || IsSpace(value[at - 1])) && ' ' !in value[at + 1..cur] && '\n' !in value[at + 1..cur]
  {
    var query := value[at + 1..cur];
    forall k | 0 <= k < |query|
      ensures query[k] == value[at + 1 + k]
    {
    }
  }

  /** A member of the room as the `room_users` event lists it. */
  datatype RoomUser = RoomUser(id: string, username: string, profilePic: Option<string>)

  /** The AI offered as a suggestion ahead of the room's members. */
  const AiUser: RoomUser := RoomUser(AiHandle, AiName, None)

  /** `isAIUser`. */
  predicate IsAIUser(v: string) {
    Normalize(v) == AiHandle
  }

  /** The AI's name in any letter case is the AI. */
  lemma IsAIUserOfAnyCase(v: string)
    requires Lower(v) == AiHandle
    ensures IsAIUser(v)
  {
    NormalizeOfLowerHandle(v);
  }

  /** The handle a member is suggested and deduplicated by. */
  function Key(m: RoomUser): string {
    Normalize(m.username)
  }

  /** `[aiUser, ...roomUsers].filter((member) => member.username)`. */
  function Named(ms: seq<RoomUser>): (r: seq<RoomUser>)
    ensures forall m :: m in r <==> m in ms && m.username != ""
    ensures ms != [] && ms[0].username != "" ==> r != [] && r[0] == ms[0]
    ensures |r| <= |ms|
  {
    if ms == [] then []
    else if ms[0].username != "" then [ms[0]] + Named(ms[1..])
    else Named(ms[1..])
  }

  function Candidates(roomUsers: seq<RoomUser>): seq<RoomUser> {
    Named([AiUser] + roomUsers)
  }

  /** `candidates.filter((member) => key(member).startsWith(q))`. */
  function WithPrefix<T(==,!new)>(ms: seq<T>, key: T -> string, q: string): (r: seq<T>)
    ensures forall m :: m in r <==> m in ms && StartsWith(key(m), q)
    ensures ms != [] && StartsWith(key(ms[0]), q) ==> r != [] && r[0] == ms[0]
    ensures |r| <= |ms|
  {
    if ms == [] then []
    else if StartsWith(key(ms[0]), q) then [ms[0]] + WithPrefix(ms[1..], key, q)
    else WithPrefix(ms[1..], key, q)
  }

  /** Filtering a concatenation filters each part, so the filter keeps the
      order of the members; with the membership and the length bound this
      pins the result down. */
  lemma {:induction false} NamedConcat(x: seq<RoomUser>, y: seq<RoomUser>)
    ensures Named(x + y) == Named(x) + Named(y)
  {
    if x == [] {
      assert x + y == y;
    } else {
      assert (x + y)[1..] == x[1..] + y;
      NamedConcat(x[1..], y);
    }
  }

  /** The same for the prefix filter. */
  lemma {:induction false} WithPrefixConcat<T(!new)>(x: seq<T>, y: seq<T>, key: T -> string, q: string)
    ensures WithPrefix(x + y, key, q) == WithPrefix(x, key, q) + WithPrefix(y, key, q)
  {
    if x == [] {
      assert x + y == y;
    } else {
      assert (x + y)[1..] == x[1..] + y;
      WithPrefixConcat(x[1..], y, key, q);
    }
  }

  /** `list.findIndex((candidate) => key(candidate) === name)`. */
  function FindIndex<T>(list: seq<T>, key: T -> string, name: string): (r: Option<nat>)
    ensures r.Some? ==> r.value < |list| && key(list[r.value]) == name
                        && forall j :: 0 <= j < r.value ==> key(list[j]) != name
    ensures r.None? ==> forall j :: 0 <= j < |list| ==> key(list[j]) != name
  {
    if list == [] then None
    else if key(list[0]) == name then Some(0)
    else match FindIndex(list[1..], key, name)
      case None => None
      case Some(k) => Some(k + 1)
  }

  /** The index of the first element of `list` with the key of `m`, or the
      length of the list when no element has it. */
  function Position<T>(list: seq<T>, key: T -> string, m: T): nat {
    match FindIndex(list, key, key(m))
    case Some(k) => k
    case None => |list|
  }

  /** `m` is the first element of `list` with its key. */
  ghost predicate FirstOfItsKey<T>(list: seq<T>, key: T -> string, m: T) {
    Position(list, key, m) < |list| && list[Position(list, key, m)] == m
  }

  lemma PositionCons<T>(list: seq<T>, key: T -> string, m: T)
    requires list != []
    ensures Position(list, key, m) == if key(list[0]) == key(m) then 0 else 1 + Position(list[1..], key, m)
  {
  }

  /** An element whose key occurs at index `k` has its first occurrence
      there or earlier. */
  lemma PositionAtMost<T>(list: seq<T>, key: T -> string, m: T, k: nat)
    requires k < |list| && key(list[k]) == key(m)
    ensures Position(list, key, m) <= k && key(list[Position(list, key, m)]) == key(m)
  {
  }

  /** The prefix filter finds the same first element for every key it lets
      through. */
  lemma {:induction false} WithPrefixPosition<T(!new)>(ms: seq<T>, key: T -> string, q: string, m: T)
    requires StartsWith(key(m), q)
    ensures var w := WithPrefix(ms, key, q);
            && (Position(w, key, m) < |w| <==> Position(ms, key, m) < |ms|)
            && (Position(w, key, m) < |w| ==> w[Position(w, key, m)] == ms[Position(ms, key, m)])
  {
    if ms != [] {
      var w := WithPrefix(ms, key, q);
      var w' := WithPrefix(ms[1..], key, q);
      PositionCons(ms, key, m);
      WithPrefixPosition(ms[1..], key, q, m);
      if StartsWith(key(ms[0]), q) {
        assert w == [ms[0]] + w' && w[1..] == w';
        PositionCons(w, key, m);
      } else {
        assert key(ms[0]) != key(m);
      }
    }
  }

  /** ... and keeps the order of the first occurrences of those keys. */
  lemma {:induction false} WithPrefixOrder<T(!new)>(ms: seq<T>, key: T -> string, q: string, m: T, n: T)
    requires StartsWith(key(m), q) && StartsWith(key(n), q)
    requires Position(ms, key, m) < |ms| && Position(ms, key, n) < |ms|
    ensures var w := WithPrefix(ms, key, q);
            Position(w, key, m) < Position(w, key, n) <==> Position(ms, key, m) < Position(ms, key, n)
  {
    var w := WithPrefix(ms, key, q);
    var w' := WithPrefix(ms[1..], key, q);
    PositionCons(ms, key, m);
    PositionCons(ms, key, n);
    if StartsWith(key(ms[0]), q) {
      assert w == [ms[0]] + w' && w[1..] == w';
      PositionCons(w, key, m);
      PositionCons(w, key, n);
      if key(ms[0]) != key(m) && key(ms[0]) != key(n) {
        WithPrefixOrder(ms[1..], key, q, m, n);
      }
    } else {
      assert key(ms[0]) != key(m) && key(ms[0]) != key(n);
      WithPrefixOrder(ms[1..], key, q, m, n);
    }
  }

  /** `list.filter((member, index, list) => list.findIndex(...) === index)`
      over the indices from `i` on. */
  function KeepFirst<T(==,!new)>(list: seq<T>, key: T -> string, i: nat): (r: seq<T>)
    requires i <= |list|
    decreases |list| - i
    ensures forall m :: m in r ==>
              exists k :: i <= k < |list| && m == list[k] && forall j :: 0 <= j < k ==> key(list[j]) != key(m)
  {
    if i == |list| then []
    else
      var rest := KeepFirst(list, key, i + 1);
      if FindIndex(list, key, key(list[i])) == Some(i) then [list[i]] + rest else rest
  }

  /** Every element the `findIndex` filter keeps is the first of its key, at
      or after the index the filter starts from. */
  lemma {:induction false} KeepFirstKeepsFirsts<T(!new)>(list: seq<T>, key: T -> string, i: nat)
    requires i <= |list|
    decreases |list| - i
    ensures forall m :: m in KeepFirst(list, key, i) ==> FirstOfItsKey(list, key, m) && i <= Position(list, key, m)
  {
    if i < |list| {
      KeepFirstKeepsFirsts(list, key, i + 1);
    }
  }

  /** The kept elements come in the order of the list. */
  lemma {:induction false} KeepFirstInOrder<T(!new)>(list: seq<T>, key: T -> string, i: nat)
    requires i <= |list|
    decreases |list| - i
    ensures forall a, b :: 0 <= a < b < |KeepFirst(list, key, i)| ==>
              Position(list, key, KeepFirst(list, key, i)[a]) < Position(list, key, KeepFirst(list, key, i)[b])
  {
    if i < |list| {
      KeepFirstInOrder(list, key, i + 1);
      var rest := KeepFirst(list, key, i + 1);
      if FindIndex(list, key, key(list[i])) == Some(i) {
        KeepFirstKeepsFirsts(list, key, i + 1);
        assert Position(list, key, list[i]) == i;
        var r := [list[i]] + rest;
        forall a, b | 0 <= a < b < |r|
          ensures Position(list, key, r[a]) < Position(list, key, r[b])
        {
          var y := rest[b - 1];
          assert r[b] == y && y in rest;
          assert i + 1 <= Position(list, key, y);
          if a > 0 {
            assert r[a] == rest[a - 1];
          } else {
            assert r[a] == list[i];
          }
        }
      }
    }
  }

  /** Every first occurrence of a key from the starting index on is kept. */
  lemma {:induction false} KeepFirstKeepsAllFirsts<T(!new)>(list: seq<T>, key: T -> string, i: nat)
    requires i <= |list|
    decreases |list| - i
    ensures forall k :: i <= k < |list| && Position(list, key, list[k]) == k ==> list[k] in KeepFirst(list, key, i)
  {
    if i < |list| {
      KeepFirstKeepsAllFirsts(list, key, i + 1);
    }
  }

  /** The keys of the elements of `s`. */
  function Keys<T(==,!new)>(s: seq<T>, key: T -> string): set<string> {
    set m | m in s :: key(m)
  }

  predicate DistinctKeys<T>(s: seq<T>, key: T -> string) {
    forall i, j :: 0 <= i < j < |s| ==> key(s[i]) != key(s[j])
  }

  /** The reference deduplication: a left-to-right pass that keeps an
      element when no element before it had its key. */
  function Dedupe<T(==,!new)>(list: seq<T>, key: T -> string, seen: set<string>): (r: seq<T>)
    ensures forall m :: m in r ==> m in list && key(m) !in seen
    ensures DistinctKeys(r, key)
    ensures forall x :: x in list ==> key(x) in seen || key(x) in Keys(r, key)
  {
    if list == [] then []
    else if key(list[0]) in seen then Dedupe(list[1..], key, seen)
    else
      var rest := Dedupe(list[1..], key, seen + {key(list[0])});
      assert forall x :: x in list ==> x == list[0] || x in list[1..];
      assert key(list[0]) in Keys([list[0]] + rest, key);
      assert Keys(rest, key) <= Keys([list[0]] + rest, key);
      [list[0]] + rest
  }

  /** `findIndex` stops at index `i` exactly when no element before `i`
      has its key. */
  lemma FindIndexOfOwnKey<T(!new)>(list: seq<T>, key: T -> string, i: nat)
    requires i < |list|
    ensures FindIndex(list, key, key(list[i])) == Some(i) <==> key(list[i]) !in Keys(list[..i], key)
  {
    var x := list[i];
    if key(x) in Keys(list[..i], key) {
      var m :| m in list[..i] && key(m) == key(x);
      var j :| 0 <= j < i && list[j] == m;
      assert key(list[j]) == key(x);
    } else {
      forall j | 0 <= j < i
        ensures key(list[j]) != key(x)
      {
        assert list[j] in list[..i];
      }
    }
  }

  /** The `findIndex` filter is the reference deduplication, started with
      the keys of the elements before `i`. */
  lemma {:induction false} KeepFirstIsDedupe<T(!new)>(list: seq<T>, key: T -> string, i: nat)
    requires i <= |list|
    decreases |list| - i
    ensures KeepFirst(list, key, i) == Dedupe(list[i..], key, Keys(list[..i], key))
  {
    if i < |list| {
      KeepFirstIsDedupe(list, key, i + 1);
      var x := list[i];
      var seen := Keys(list[..i], key);
      assert list[..i + 1] == list[..i] + [x];
      assert Keys(list[..i + 1], key) == seen + {key(x)};
      var tail := list[i + 1..];
      assert list[i..] == [x] + tail;
      FindIndexOfOwnKey(list, key, i);
      if key(x) in seen {
        assert seen + {key(x)} == seen;
        assert Dedupe(list[i..], key, seen) == Dedupe(tail, key, seen);
      } else {
        assert Dedupe(list[i..], key, seen) == [x] + Dedupe(tail, key, seen + {key(x)});
      }
    }
  }

  /** `unique.slice(0, 3)`. */
  function FirstThree<T(==,!new)>(list: seq<T>, key: T -> string): seq<T> {
    var unique := KeepFirst(list, key, 0);
    if |unique| <= 3 then unique else unique[..3]
  }

  /** At most three elements of the list, with distinct keys, each taken
      from the list; fewer than three means every key of the list is
      represented. */
  lemma FirstThreeSpec<T(!new)>(list: seq<T>, key: T -> string)
    ensures var r := FirstThree(list, key);
            && |r| <= 3
            && (forall m :: m in r ==> m in list)
            && DistinctKeys(r, key)
            && (|r| < 3 ==> forall m :: m in list ==> key(m) in Keys(r, key))
  {
    var unique := KeepFirst(list, key, 0);
    var r := FirstThree(list, key);
    KeepFirstIsDedupe(list, key, 0);
    assert list[0..] == list && list[..0] == [];
    assert Keys([], key) == {};
    assert forall i :: 0 <= i < |r| ==> r[i] == unique[i];
  }

  /** Which three are kept: each is the first of its key in the list, they
      come in the order of the list, and with three kept every key met
      before the third one is among them. */
  lemma FirstThreeOrder<T(!new)>(list: seq<T>, key: T -> string)
    ensures var r := FirstThree(list, key);
            && (forall m :: m in r ==> FirstOfItsKey(list, key, m))
            && (forall a, b :: 0 <= a < b < |r| ==> Position(list, key, r[a]) < Position(list, key, r[b]))
            && (|r| == 3 ==> forall k :: 0 <= k < Position(list, key, r[2]) ==> key(list[k]) in Keys(r, key))
  {
    var unique := KeepFirst(list, key, 0);
    var r := FirstThree(list, key);
    assert forall i :: 0 <= i < |r| ==> r[i] == unique[i];
    KeepFirstKeepsFirsts(list, key, 0);
    KeepFirstInOrder(list, key, 0);
    if |r| == 3 {
      FirstThreeBeforeThird(list, key);
      assert unique[..2] == r[..2];
      assert Keys(r[..2], key) <= Keys(r, key);
    }
  }

  /** With three kept, the first occurrence of any key met before the third
      one is among the first two kept. */
  lemma FirstThreeBeforeThird<T(!new)>(list: seq<T>, key: T -> string)
    requires |KeepFirst(list, key, 0)| >= 3
    ensures forall k :: 0 <= k < Position(list, key, KeepFirst(list, key, 0)[2]) ==>
              key(list[k]) in Keys(KeepFirst(list, key, 0)[..2], key)
  {
    var unique := KeepFirst(list, key, 0);
    KeepFirstKeepsFirsts(list, key, 0);
    KeepFirstInOrder(list, key, 0);
    KeepFirstKeepsAllFirsts(list, key, 0);
    assert unique[2] in unique;
    forall k | 0 <= k < Position(list, key, unique[2])
      ensures key(list[k]) in Keys(unique[..2], key)
    {
      PositionAtMost(list, key, list[k], k);
      var p := Position(list, key, list[k]);
      assert Position(list, key, list[p]) == p;
      var t :| 0 <= t < |unique| && unique[t] == list[p];
      assert t < 2;
      assert unique[..2][t] == unique[t];
    }
  }

  /** The head of the list comes first, and no other element with its key
      is kept. */
  lemma FirstThreeHead<T(!new)>(list: seq<T>, key: T -> string)
    requires list != []
    ensures var r := FirstThree(list, key);
            && r != [] && r[0] == list[0]
            && forall m :: m in r && key(m) == key(list[0]) ==> m == list[0]
  {
    var unique := KeepFirst(list, key, 0);
    var r := FirstThree(list, key);
    assert FindIndex(list, key, key(list[0])) == Some(0);
    assert unique[0] == list[0];
    forall m | m in r && key(m) == key(list[0])
      ensures m == list[0]
    {
      assert m in unique;
      var k :| 0 <= k < |list| && m == list[k] && forall j :: 0 <= j < k ==> key(list[j]) != key(m);
      assert k == 0;
    }
  }

  /** `mentionSuggestions`. */
  function MentionSuggestions(st: MentionState, roomUsers: seq<RoomUser>): seq<RoomUser> {
    if st.at.None? then []
    else
      var q := Normalize(st.query);
      var cands := Candidates(roomUsers);
      var filtered := if q != "" then WithPrefix(cands, Key, q) else cands;
      FirstThree(filtered, Key)
  }

  /** With an empty query every candidate matches. */
  lemma EmptyPrefix(s: string)
    ensures StartsWith(s, "")
  {
  }

  /** No suggestions without an open mention; otherwise at most three named
      members, each matching the typed handle, with pairwise different
      handles; each is the first candidate with its handle, so the AI comes
      first whenever its handle matches and shadows any member whose name
      normalises to its handle; and fewer than three suggestions means every
      matching handle is offered. */
  lemma MentionSuggestionsSpec(st: MentionState, roomUsers: seq<RoomUser>)
    ensures var r := MentionSuggestions(st, roomUsers);
            var q := Normalize(st.query);
            && (st.at.None? ==> r == [])
            && |r| <= 3
            && (forall m :: m in r ==> m.username != "" && (m == AiUser || m in roomUsers))
            && (forall m :: m in r ==> StartsWith(Key(m), q))
            && DistinctKeys(r, Key)
            && (st.at.Some? && StartsWith(AiHandle, q) ==> r != [] && r[0] == AiUser)
            && (forall m :: m in r && Key(m) == AiHandle ==> m == AiUser)
            && (st.at.Some? && |r| < 3 ==>
                  forall m :: m in Candidates(roomUsers) && StartsWith(Key(m), q) ==> Key(m) in Keys(r, Key))
  {
    if st.at.Some? {
      var q := Normalize(st.query);
      var cands := Candidates(roomUsers);
      var filtered := if q != "" then WithPrefix(cands, Key, q) else cands;
      var r := FirstThree(filtered, Key);
      FirstThreeSpec(filtered, Key);
      if filtered != [] {
        FirstThreeHead(filtered, Key);
      }
      AiNameNormalizesToAiHandle();
      assert Key(AiUser) == AiHandle;
      assert cands[0] == AiUser;
      if q == "" {
        forall m | m in r
          ensures StartsWith(Key(m), q)
        {
          EmptyPrefix(Key(m));
        }
      }
      if StartsWith(AiHandle, q) {
        assert filtered[0] == AiUser;
      }
      forall m | m in r && Key(m) == AiHandle
        ensures m == AiUser
      {
        assert filtered != [] && filtered[0] == AiUser;
      }
    }
  }

  /** Each element of `r` is the first of its key in `list`, and `r` keeps
      the order of those first occurrences. */
  ghost predicate FirstsInOrder<T>(list: seq<T>, key: T -> string, r: seq<T>) {
    && (forall m :: m in r ==> FirstOfItsKey(list, key, m))
    && (forall a, b :: 0 <= a < b < |r| ==> Position(list, key, r[a]) < Position(list, key, r[b]))
  }

  /** With three in `r`, every key starting with `q` that `list` meets
      before the third one's first occurrence is a key of `r`. */
  ghost predicate CoversBeforeThird<T(!new)>(list: seq<T>, key: T -> string, q: string, r: seq<T>) {
    |r| == 3 ==>
      forall k :: 0 <= k < Position(list, key, r[2]) && k < |list| && StartsWith(key(list[k]), q) ==>
        key(list[k]) in Keys(r, key)
  }

  /** The first three of the list filtered by a key prefix are, relative to
      the unfiltered list, each the first of its key, in list order, and
      with three kept they cover every matching key met before the third. */
  lemma FirstThreeWithPrefix<T(!new)>(list: seq<T>, key: T -> string, q: string)
    ensures FirstsInOrder(list, key, FirstThree(WithPrefix(list, key, q), key))
    ensures CoversBeforeThird(list, key, q, FirstThree(WithPrefix(list, key, q), key))
  {
    var w := WithPrefix(list, key, q);
    var r := FirstThree(w, key);
    FirstThreeSpec(w, key);
    FirstThreeOrder(w, key);
    forall m | m in r
      ensures FirstOfItsKey(list, key, m)
    {
      WithPrefixPosition(list, key, q, m);
    }
    forall a, b | 0 <= a < b < |r|
      ensures Position(list, key, r[a]) < Position(list, key, r[b])
    {
      WithPrefixPosition(list, key, q, r[a]);
      WithPrefixPosition(list, key, q, r[b]);
      WithPrefixOrder(list, key, q, r[a], r[b]);
    }
    if |r| == 3 {
      forall k | 0 <= k < Position(list, key, r[2]) && k < |list| && StartsWith(key(list[k]), q)
        ensures key(list[k]) in Keys(r, key)
      {
        var c := list[k];
        PositionAtMost(list, key, c, k);
        WithPrefixPosition(list, key, q, c);
        WithPrefixPosition(list, key, q, r[2]);
        WithPrefixOrder(list, key, q, c, r[2]);
        var p := Position(w, key, c);
        assert key(w[p]) == key(c);
      }
    }
  }

  /** Which suggestions are offered, relative to the candidates (the AI,
      then the room's users, those with an empty name dropped): each
      suggestion is the first candidate with its handle, the suggestions
      come in the order of the candidates, and with three offered every
      matching handle met before the third one is offered. */
  lemma MentionSuggestionsOrder(st: MentionState, roomUsers: seq<RoomUser>)
    ensures FirstsInOrder(Candidates(roomUsers), Key, MentionSuggestions(st, roomUsers))
    ensures CoversBeforeThird(Candidates(roomUsers), Key, Normalize(st.query), MentionSuggestions(st, roomUsers))
  {
    var q := Normalize(st.query);
    var cands := Candidates(roomUsers);
    if st.at.Some? {
      if q == "" {
        FirstThreeOrder(cands, Key);
      } else {
        FirstThreeWithPrefix(cands, Key, q);
      }
    }
  }

  /** The text and caret after a suggestion is chosen. */
  datatype Edit = Edit(text: string, caret: nat)

  /** The text from `at` to `cursor` replaced by `@`, `handle` and a space,
      with the caret after that space. */
  function Splice(text: string, at: nat, cursor: nat, handle: string): Edit
    requires at <= |text| && cursor <= |text|
  {
    Edit(text[..at] + "@" + handle + " " + text[cursor..], at + |handle| + 2)
  }

  /** `insertMention`: nothing happens without an open mention; otherwise
      the chosen member's handle is spliced in at the `@`. `slice` clamps
      the mention's index to the text. */
  function InsertMention(text: string, st: MentionState, selectionStart: Option<nat>, username: string): Option<Edit> {
    if st.at.None? then None
    else
      var at := if st.at.value <= |text| then st.at.value else |text|;
      Some(Splice(text, at, Cursor(text, selectionStart), Normalize(username)))
  }

  /** The inserted token is `@` and the handle followed by a space; the text
      before it is the text before the `@`, the caret ends the token, and
      the text after the caret is what followed the cursor. */
  lemma SpliceSpec(text: string, at: nat, cursor: nat, handle: string)
    requires at <= |text| && cursor <= |text|
    ensures var e := Splice(text, at, cursor, handle);
            && e.caret <= |e.text|
            && |e.text| == at + |handle| + 2 + |text| - cursor
            && e.text[..at] == text[..at]
            && e.text[at..e.caret] == "@" + handle + " "
            && e.text[e.caret..] == text[cursor..]
  {
    var e := Splice(text, at, cursor, handle);
    assert e.text == (text[..at] + "@" + handle + " ") + text[cursor..];
  }

  /** Right after the insertion of a handle the caret follows a space, so no
      mention is open any more. */
  lemma SpliceCloses(text: string, at: nat, cursor: nat, handle: string)
    requires at <= |text| && cursor <= |text|
    requires IsHandle(handle)
    ensures var e := Splice(text, at, cursor, handle);
            OnTextChange(e.text, Some(e.caret)) == Closed
  {
    var e := Splice(text, at, cursor, handle);
    SpliceSpec(text, at, cursor, handle);
    var before := e.text[..e.caret];
    assert before[at] == '@';
    assert LastIndexOf(before, '@') == Some(at) by {
      forall j | at < j < |before|
        ensures before[j] != '@'
      {
        assert before[j] == e.text[at..e.caret][j - at];
        if j < |before| - 1 {
          assert before[j] == handle[j - at - 1];
        }
      }
      LastIndexOfIsLast(before, '@', at);
    }
    var query := before[at + 1..];
    assert query[|query| - 1] == ' ';
  }

  /** Choosing any suggestion closes the mention. */
  lemma InsertMentionCloses(text: string, st: MentionState, selectionStart: Option<nat>, username: string)
    requires st.at.Some?
    ensures var e := InsertMention(text, st, selectionStart, username);
            e.Some? && OnTextChange(e.value.text, Some(e.value.caret)) == Closed
  {
    var at := if st.at.value <= |text| then st.at.value else |text|;
    NormalizeIsHandle(username);
    SpliceCloses(text, at, Cursor(text, selectionStart), Normalize(username));
  }

  /** `lastIndexOf` finds the last occurrence. */
  lemma LastIndexOfIsLast(s: string, c: char, i: nat)
    requires i < |s| && s[i] == c
    requires forall j :: i < j < |s| ==> s[j] != c
    ensures LastIndexOf(s, c) == Some(i)
  {
    var r := LastIndexOf(s, c);
    assert r.Some?;
    assert r.value >= i;
  }

  /** Choosing a member whose name normalises to the AI's handle (the AI
      itself, or anyone named so) from an open mention gives a message the
      server hands to the model, after the page's and the server's
      trimming. */
  lemma ChoosingAiMentionsIt(text: string, typed: Option<nat>, selectionStart: Option<nat>, username: string)
    requires OnTextChange(text, typed).at.Some?
    requires IsAIUser(username)
    ensures var e := InsertMention(text, OnTextChange(text, typed), selectionStart, username);
            e.Some? && MentionsAI(Trim(e.value.text)) && MentionsAI(Trim(Trim(e.value.text)))
  {
    var st := OnTextChange(text, typed);
    OnTextChangeSpec(text, typed);
    var at := st.at.value;
    assert OpensAt(text, Cursor(text, typed), at);
    var e := Splice(text, at, Cursor(text, selectionStart), AiHandle);
    assert InsertMention(text, st, selectionStart, username) == Some(e);
    SpliceAiHandle(text, at, Cursor(text, selectionStart));
    MentionSurvivesTrim(e.text);
    MentionSurvivesTrim(Trim(e.text));
  }

  /** The AI handle spliced in at the start of the text or after whitespace
      is a mention of the AI. */
  lemma SpliceAiHandle(text: string, at: nat, cursor: nat)
    requires at <= |text| && cursor <= |text|
    requires at == 0 || IsSpace(text[at - 1])
    ensures MentionsAI(Splice(text, at, cursor, AiHandle).text)
  {
    var before := text[..at];
    var after := " " + text[cursor..];
    assert Splice(text, at, cursor, AiHandle).text == before + AiToken + after;
    LowerOfAiToken();
    MentionDetected(before, AiToken, after);
  }

  /** The AI's own suggestion is the AI for the server too. */
  lemma AiUserIsAI()
    ensures IsAIUser(AiUser.username)
  {
    AiNameNormalizesToAiHandle();
  }

  /** The file picked in the image dialog, as the browser describes it. */
  datatype FileInfo = FileInfo(mime: string, size: nat)

  /** What `onImageSelected` does before reading the file. */
  datatype ImagePick = NoFile | Refused(error: string) | ReadFile(file: FileInfo)

  const OnlyImages: string := "Only image files are allowed."
  const ConnectFirst: string := "Connect to a room before sending images."

  /** `onImageSelected` up to `readAsDataURL`; `connected` is
      `socket && status === 'connected'`. */
  function OnImageSelected(file: Option<FileInfo>, connected: bool): ImagePick {
    if file.None? then NoFile
    else if !StartsWith(file.value.mime, "image/") then Refused(OnlyImages)
    else if file.value.size > MaxImageBytes then Refused(ImageTooLarge)
    else if !connected then Refused(ConnectFirst)
    else ReadFile(file.value)
  }

  /** A file is read exactly when it is an image of at most 5 MiB and the
      page is connected; a non-image is refused as such whatever its size,
      and an oversized image whatever the connection. */
  lemma OnImageSelectedSpec(file: Option<FileInfo>, connected: bool)
    ensures var p := OnImageSelected(file, connected);
            && (p.NoFile? <==> file.None?)
            && (p.ReadFile? <==> file.Some? && StartsWith(file.value.mime, "image/")
                                 && file.value.size <= MaxImageBytes && connected)
            && (p.ReadFile? ==> p.file == file.value)
            && (p == Refused(OnlyImages) <==> file.Some? && !StartsWith(file.value.mime, "image/"))
            && (p == Refused(ImageTooLarge) <==> file.Some? && StartsWith(file.value.mime, "image/")
                                                 && file.value.size > MaxImageBytes)
            && (p == Refused(ConnectFirst) <==> file.Some? && StartsWith(file.value.mime, "image/")
                                                && file.value.size <= MaxImageBytes && !connected)
  {
  }

  /** The page and the server agree on the limit: an image file the page
      reads, sent as the browser encodes it, is relayed by the server, and
      one the page refuses as too large the server would refuse too. */
  lemma ClientAndServerAgreeOnSize(mime: string, b: string, n: nat)
    requires StartsWith(mime, "image/") && !Contains(mime, Base64Marker)
    requires IsEncodingOf(b, n)
    ensures OnImageSelected(Some(FileInfo(mime, n)), true).ReadFile? <==> CheckImage(DataUri(mime, b)).Ok?
    ensures OnImageSelected(Some(FileInfo(mime, n)), true) == Refused(ImageTooLarge) <==>
              CheckImage(DataUri(mime, b)) == Err(ImageTooLarge)
  {
    CheckImageOfEncodedFile(mime, b, n);
  }
}
