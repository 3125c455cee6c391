/**
 * The browser side of the chat page, without the DOM: the list of online
 * users shown beside the conversation (`usersList`, one entry per `<li>`,
 * holding its text) and the guard that keeps blank messages from being
 * sent.
 */
module ChatClient {
  import opened Wrappers
  import opened JsValues

  // ---------------------------------------------------------------------------
  // The online-users list

  /** The ids of `userIds` other than `own`, in their order, duplicates kept. */
  function Without(userIds: seq<string>, own: string): (r: seq<string>)
    ensures own !in r
    ensures |r| <= |userIds|
    ensures forall id :: id in r ==> id in userIds
  {
    if userIds == [] then []
    else if userIds[0] != own then [userIds[0]] + Without(userIds[1..], own)
    else Without(userIds[1..], own)
  }

  /** Index of the first `<li>` whose text is `userId`, as `find` returns it. */
  function FirstIndex(list: seq<string>, userId: string): (r: Option<nat>)
    ensures r.Some? ==> r.value < |list| && list[r.value] == userId
    ensures r.Some? ==> userId !in list[..r.value]
    ensures r.None? <==> userId !in list
  {
    if list == [] then None
    else if list[0] == userId then Some(0)
    else
      match FirstIndex(list[1..], userId)
      case None => None
      case Some(i) =>
        assert list[..i + 1] == [list[0]] + list[1..][..i];
        Some(i + 1)
  }

  /** The list after `existingUser.remove()`: the first entry equal to `userId` is gone. */
  function RemoveFirst(list: seq<string>, userId: string): seq<string>
  {
    match FirstIndex(list, userId)
    case None => list
    case Some(i) => list[..i] + list[i + 1..]
  }

  /** The text `li.textContent = userId` leaves: an `undefined` id becomes the empty text. */
  function ListedText(userId: Field): string
  {
    if userId.Some? then userId.value else ""
  }

  /**
   * The list after `updateUserStatus(userId, status)` for the user `own`. A
   * status message without a `userId` matches no entry, since no `<li>` text
   * is `undefined`, so `online` appends an empty entry and `offline` does
   * nothing.
   */
  function StatusUpdate(list: seq<string>, own: string, userId: Field, status: string): (r: seq<string>)
    ensures |list| - 1 <= |r| <= |list| + 1
    ensures forall id :: id in r ==> id in list || id == ListedText(userId)
  {
    if userId == Some(own) then list
    else if status == "online" then
      match userId
      case None => list + [""]
      case Some(id) => if FirstIndex(list, id).None? then list + [id] else list
    else
      match userId
      case None => list
      case Some(id) => RemoveFirst(list, id)
  }

  /** No id is listed twice. */
  ghost predicate NoDuplicates(list: seq<string>)
  {
    forall i, j :: 0 <= i < j < |list| ==> list[i] != list[j]
  }

  /** Filtering one more id at the end extends the filtered list by that id unless it is `own`. */
  lemma {:induction false} WithoutAppend(userIds: seq<string>, id: string, own: string)
    ensures Without(userIds + [id], own) == Without(userIds, own) + (if id != own then [id] else [])
  {
    if userIds == [] {
      assert userIds + [id] == [id];
    } else {
      assert (userIds + [id])[1..] == userIds[1..] + [id];
      WithoutAppend(userIds[1..], id, own);
    }
  }

  /**
   * `updateOnlineUsers` keeps the input's order and duplicates and drops
   * only `own`: filtering distributes over concatenation, no kept id is
   * `own`, and every other id keeps its number of occurrences.
   */
  lemma {:induction false} WithoutIsFilter(a: seq<string>, b: seq<string>, own: string)
    ensures Without(a + b, own) == Without(a, own) + Without(b, own)
    ensures own !in Without(a, own)
    ensures forall id :: id != own ==> multiset(Without(a, own))[id] == multiset(a)[id]
  {
    if a == [] {
      assert a + b == b;
    } else {
      assert (a + b)[1..] == a[1..] + b;
      WithoutIsFilter(a[1..], b, own);
      assert a == [a[0]] + a[1..];
      assert multiset(a) == multiset{a[0]} + multiset(a[1..]);
    }
  }

  /**
   * Removing the first match takes away exactly one occurrence of a listed
   * id, keeps the entries before it and shifts the rest up by one; an id
   * that is not listed leaves the list as it was.
   */
  lemma RemoveFirstRemovesOne(list: seq<string>, userId: string)
    ensures userId !in list ==> RemoveFirst(list, userId) == list
    ensures userId in list ==>
      && |RemoveFirst(list, userId)| == |list| - 1
      && multiset(RemoveFirst(list, userId)) == multiset(list) - multiset{userId}
      && exists i :: 0 <= i < |list| && list[i] == userId && userId !in list[..i] &&
           RemoveFirst(list, userId) == list[..i] + list[i + 1..]
  {
    match FirstIndex(list, userId)
    case None =>
    case Some(i) =>
      assert list == list[..i] + [list[i]] + list[i + 1..];
      assert multiset(list) == multiset(list[..i]) + multiset{userId} + multiset(list[i + 1..]);
  }

  /** A status message about the user's own id leaves the list as it was. */
  lemma OwnStatusIgnored(list: seq<string>, own: string, status: string)
    ensures StatusUpdate(list, own, Some(own), status) == list
  {
  }

  /**
   * An `online` status for another user appends the id at the end only when
   * it is not listed yet, keeping the other entries in order: afterwards it
   * is listed, and it occurs as often as before, or once if it was absent.
   */
  lemma OnlineAddsIfAbsent(list: seq<string>, own: string, userId: string)
    requires userId != own
    ensures StatusUpdate(list, own, Some(userId), "online") == if userId in list then list else list + [userId]
    ensures var r := StatusUpdate(list, own, Some(userId), "online");
      && userId in r
      && multiset(r)[userId] == (if userId in list then multiset(list)[userId] else 1)
      && forall id :: id != userId ==> multiset(r)[id] == multiset(list)[id]
  {
  }

  /**
   * The only path through `updateUserStatus` that can give a duplicate-free
   * list a duplicate is an `online` status without a `userId`, which appends
   * an empty entry.
   */
  lemma StatusUpdateKeepsNoDuplicates(list: seq<string>, own: string, userId: Field, status: string)
    requires NoDuplicates(list)
    ensures NoDuplicates(StatusUpdate(list, own, userId, status))
      || (userId.None? && status == "online" && StatusUpdate(list, own, userId, status) == list + [""])
  {
    var r := StatusUpdate(list, own, userId, status);
    if userId.Some? && userId != Some(own) && status != "online" {
      match FirstIndex(list, userId.value)
      case None =>
      case Some(i) =>
        assert forall k :: 0 <= k < |r| ==> r[k] == if k < i then list[k] else list[k + 1];
    }
  }

  /**
   * A status without a `userId`: `online` appends an empty entry every time,
   * so two of them list the empty text twice; any other status changes
   * nothing.
   */
  lemma MissingIdListsEmptyEntry(list: seq<string>, own: string, status: string)
    ensures StatusUpdate(list, own, None, "online") == list + [""]
    ensures status != "online" ==> StatusUpdate(list, own, None, status) == list
    ensures var twice := StatusUpdate(StatusUpdate(list, own, None, "online"), own, None, "online");
      !NoDuplicates(twice)
  {
    var twice := StatusUpdate(StatusUpdate(list, own, None, "online"), own, None, "online");
    assert twice[|list|] == twice[|list| + 1];
  }

  // ---------------------------------------------------------------------------
  // The send guard of the message form

  /** The characters JavaScript's `String.prototype.trim` strips: white space and line terminators. */
  const JsWhitespace: set<char> := {
    '\t', '\n', '\U{000B}', '\U{000C}', '\r', ' ', '\U{00A0}', '\U{1680}', '\U{2000}', '\U{2001}',
    '\U{2002}', '\U{2003}', '\U{2004}', '\U{2005}', '\U{2006}', '\U{2007}', '\U{2008}', '\U{2009}',
    '\U{200A}', '\U{2028}', '\U{2029}', '\U{202F}', '\U{205F}', '\U{3000}', '\U{FEFF}'
  }

  predicate IsJsWhitespace(c: char)
  {
    c in JsWhitespace
  }

  /** How many white-space characters `s` starts with. */
  function BlankPrefix(s: string): (n: nat)
    ensures n <= |s|
    ensures forall k :: 0 <= k < n ==> IsJsWhitespace(s[k])
    ensures n < |s| ==> !IsJsWhitespace(s[n])
  {
    if s != [] && IsJsWhitespace(s[0]) then
      assert forall k :: 1 <= k < |s| ==> s[k] == s[1..][k - 1];
      1 + BlankPrefix(s[1..])
    else 0
  }

  /** Where the run of white space that `s` ends with begins. */
  function BlankSuffixStart(s: string): (j: nat)
    ensures j <= |s|
    ensures forall k :: j <= k < |s| ==> IsJsWhitespace(s[k])
    ensures 0 < j ==> !IsJsWhitespace(s[j - 1])
  {
    if s != [] && IsJsWhitespace(s[|s| - 1]) then
      assert forall k :: 0 <= k < |s| - 1 ==> s[k] == s[..|s| - 1][k];
      BlankSuffixStart(s[..|s| - 1])
    else |s|
  }

  /** `value.trim()`: drop the leading, then the trailing white space. */
  function Trim(s: string): (r: string)
    ensures |r| <= |s|
    ensures r != [] ==> !IsJsWhitespace(r[0]) && !IsJsWhitespace(r[|r| - 1])
  {
    var t := s[BlankPrefix(s)..];
    t[..BlankSuffixStart(t)]
  }

  predicate AllWhitespace(s: string)
  {
    forall i :: 0 <= i < |s| ==> IsJsWhitespace(s[i])
  }

  /** The chat frame the form sends: `{type: 'chat', userId, username, text}`. */
  datatype ChatFrame = ChatFrame(userId: string, username: string, text: string)

  /** The submit handler: the frame it sends, or nothing when the trimmed text is empty. */
  function Submit(input: string, userId: string, username: string): (r: Option<ChatFrame>)
    ensures r.None? <==> AllWhitespace(input)
    ensures r.Some? ==> r.value == ChatFrame(userId, username, Trim(input))
  {
    TrimSpec(input);
    var messageText := Trim(input);
    if messageText == "" then None else Some(ChatFrame(userId, username, messageText))
  }

  /**
   * `trim()` yields a slice of its input that is empty exactly when the input
   * is blank, and otherwise starts and ends with a non-space.
   */
  lemma TrimSpec(s: string)
    ensures Trim(s) == [] <==> AllWhitespace(s)
    ensures Trim(s) != [] ==> !IsJsWhitespace(Trim(s)[0]) && !IsJsWhitespace(Trim(s)[|Trim(s)| - 1])
    ensures exists i, j :: 0 <= i <= j <= |s| && Trim(s) == s[i..j] && AllWhitespace(s[..i]) && AllWhitespace(s[j..])
  {
    var i := BlankPrefix(s);
    var t := s[i..];
    var j := BlankSuffixStart(t);
    assert Trim(s) == t[..j] == s[i..i + j];
    assert AllWhitespace(s[..i]);
    assert AllWhitespace(s[i + j..]) by {
      assert s[i + j..] == t[j..];
    }
    if j == 0 {
      // A non-blank `t` would start with a non-space that the trailing run covers.
      assert i == |s|;
    } else {
      assert t[0] == s[i];
      assert !AllWhitespace(s);
    }
  }

  // ---------------------------------------------------------------------------
  // The list, updated in place

  class OnlineUsersPanel {
    /** `currentUser.userId`. */
    const ownId: string
    /** The text of each `<li>` of `usersList`, in document order. */
    var usersList: seq<string>

    constructor (ownId: string)
      ensures this.ownId == ownId && usersList == []
    {
      this.ownId := ownId;
      usersList := [];
    }

    /** `updateOnlineUsers(userIds)`: clear the list, then append every id but the user's own. */
    method UpdateOnlineUsers(userIds: seq<string>)
      modifies this
      ensures usersList == Without(userIds, ownId)
    {
      usersList := [];
      for i := 0 to |userIds|
        invariant usersList == Without(userIds[..i], ownId)
      {
        assert userIds[..i + 1] == userIds[..i] + [userIds[i]];
        WithoutAppend(userIds[..i], userIds[i], ownId);
        if userIds[i] != ownId {
          usersList := usersList + [userIds[i]];
        }
      }
      assert userIds[..|userIds|] == userIds;
    }

    /** `updateUserStatus(userId, status)`. */
    method UpdateUserStatus(userId: Field, status: string)
      modifies this
      ensures usersList == StatusUpdate(old(usersList), ownId, userId, status)
    {
      if userId == Some(ownId) {
        return;
      }
      var existingUser := if userId.Some? then FirstIndex(usersList, userId.value) else None;
      if status == "online" {
        if existingUser.None? {
          usersList := usersList + [ListedText(userId)];
        }
      } else {
        if existingUser.Some? {
          var i := existingUser.value;
          usersList := usersList[..i] + usersList[i + 1..];
        }
      }
    }
  }
}
