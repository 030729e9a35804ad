/**
 Backwards infinite scroll over a thread's messages: the keyset page query
 (src/wolfpaw/memory/conversational.py:237-276), the endpoint that over-fetches by one to tell
 whether there is more (src/wolfpaw/channels/web.py:216-270), and the client that follows the cursor
 of the oldest message it shows (web/src/chat/ChatPage.tsx:151-202).

 A table is its rows in the order of insertion. Time stamps and identifiers are compared as numbers.
 */
module Paging {
  import opened Prelude

  datatype Role = User | Assistant | System | Tool

  datatype Message = Message(at: int, id: int, thread: int, role: Role, content: string)

  datatype Key = Key(at: int, id: int)

  function KeyOf(m: Message): Key {
    Key(m.at, m.id)
  }

  /** SQL's row comparison. */
  predicate Less(a: Key, b: Key) {
    a.at < b.at || (a.at == b.at && a.id < b.id)
  }

  type Table = seq<Message>

  /** The primary key. */
  predicate Keyed(table: Table) {
    forall i, j :: 0 <= i < j < |table| ==> table[i].id != table[j].id
  }

  // ---- WHERE and ORDER BY ----

  predicate Matches(m: Message, thread: int, roles: Option<set<Role>>, before: Option<Key>) {
    && m.thread == thread
    && (roles.Some? ==> m.role in roles.value)
    && (before.Some? ==> Less(KeyOf(m), before.value))
  }

  function Where(table: Table, thread: int, roles: Option<set<Role>>, before: Option<Key>): Table {
    if table == [] then []
    else
      var rest := Where(table[..|table| - 1], thread, roles, before);
      var m := table[|table| - 1];
      if Matches(m, thread, roles, before) then rest + [m] else rest
  }

  predicate Ascending(s: Table) {
    forall i, j :: 0 <= i < j < |s| ==> Less(KeyOf(s[i]), KeyOf(s[j]))
  }

  /** `m` put in front of the first greater message. */
  function Insert(m: Message, s: Table): Table {
    if s == [] then [m]
    else
      var last := |s| - 1;
      if Less(KeyOf(s[last]), KeyOf(m)) then s + [m] else Insert(m, s[..last]) + [s[last]]
  }

  function Sorted(s: Table): Table {
    if s == [] then [] else Insert(s[|s| - 1], Sorted(s[..|s| - 1]))
  }

  /** The thread's messages of those roles before the cursor, oldest first. */
  function Chronicle(table: Table, thread: int, roles: Option<set<Role>>, before: Option<Key>): Table {
    Sorted(Where(table, thread, roles, before))
  }

  lemma {:induction false} InsertAdds(m: Message, s: Table)
    ensures multiset(Insert(m, s)) == multiset(s) + multiset{m}
  {
    if s != [] {
      var last := |s| - 1;
      assert s == s[..last] + [s[last]];
      InsertAdds(m, s[..last]);
    }
  }

  lemma {:induction false} InsertKeeps(m: Message, s: Table)
    requires Ascending(s) && forall i :: 0 <= i < |s| ==> s[i].id != m.id
    ensures Ascending(Insert(m, s))
  {
    if s != [] && !Less(KeyOf(s[|s| - 1]), KeyOf(m)) {
      var last := |s| - 1;
      var front := Insert(m, s[..last]);
      InsertKeeps(m, s[..last]);
      InsertAdds(m, s[..last]);
      hide Insert;
      forall i | 0 <= i < |front| ensures Less(KeyOf(front[i]), KeyOf(s[last])) {
        assert front[i] in multiset(front);
        assert front[i] in s[..last] || front[i] == m;
      }
      AscendingSnoc(front, s[last]);
    }
  }

  lemma AscendingSnoc(s: Table, m: Message)
    requires Ascending(s) && forall i :: 0 <= i < |s| ==> Less(KeyOf(s[i]), KeyOf(m))
    ensures Ascending(s + [m])
  {}

  lemma {:induction false} SortedSame(s: Table)
    ensures multiset(Sorted(s)) == multiset(s)
  {
    if s != [] {
      var last := |s| - 1;
      SortedSame(s[..last]);
      assert s == s[..last] + [s[last]];
      InsertAdds(s[last], Sorted(s[..last]));
    }
  }

  /** Sorting loses and adds nothing, and distinct identifiers leave no ties. */
  lemma {:induction false} SortedIsAscending(s: Table)
    requires Keyed(s)
    ensures Ascending(Sorted(s)) && multiset(Sorted(s)) == multiset(s)
  {
    hide Ascending, Insert;
    SortedSame(s);
    if s == [] {
      EmptyAscending();
    } else {
      var last := |s| - 1;
      var front := Sorted(s[..last]);
      SortedIsAscending(s[..last]);
      forall i | 0 <= i < |front| ensures front[i].id != s[last].id {
        assert front[i] in multiset(s[..last]);
      }
      InsertKeeps(s[last], front);
    }
  }

  lemma EmptyAscending()
    ensures Ascending([])
  {}

  /** The rows selected are those that match, each as often as it is in the table. */
  lemma {:induction false} WhereExact(table: Table, thread: int, roles: Option<set<Role>>, before: Option<Key>)
    ensures Keyed(table) ==> Keyed(Where(table, thread, roles, before))
    ensures forall m :: m in Where(table, thread, roles, before) <==> m in table && Matches(m, thread, roles, before)
  {
    if table != [] {
      var last := |table| - 1;
      WhereExact(table[..last], thread, roles, before);
      assert table == table[..last] + [table[last]];
      if Keyed(table) {
        forall i | 0 <= i < |Where(table[..last], thread, roles, before)|
          ensures Where(table[..last], thread, roles, before)[i].id != table[last].id
        {
          assert Where(table[..last], thread, roles, before)[i] in table[..last];
        }
      }
    }
  }

  /**
   What a chronicle is: strictly ascending, and holding exactly the matching messages. There is only one
   such sequence.
   */
  lemma ChronicleExact(table: Table, thread: int, roles: Option<set<Role>>, before: Option<Key>)
    requires Keyed(table)
    ensures var c := Chronicle(table, thread, roles, before);
            Ascending(c) && forall m :: m in c <==> m in table && Matches(m, thread, roles, before)
  {
    var w := Where(table, thread, roles, before);
    WhereExact(table, thread, roles, before);
    SortedIsAscending(w);
    forall m ensures m in Sorted(w) <==> m in w {
      assert m in Sorted(w) <==> m in multiset(Sorted(w));
      assert m in w <==> m in multiset(w);
    }
  }

  lemma {:induction false} AscendingUnique(s: Table, t: Table)
    requires Ascending(s) && Ascending(t) && forall m :: m in s <==> m in t
    ensures s == t
  {
    if s != [] { assert s[0] in s; }
    if t != [] { assert t[0] in t; }
    if s != [] && t != [] {
      var a, b := |s| - 1, |t| - 1;
      assert s[a] in t && t[b] in s;
      assert s[a] == t[b];
      forall m ensures m in s[..a] <==> m in t[..b] {
        if m in s[..a] { assert m in t; }
        if m in t[..b] { assert m in s; }
      }
      AscendingUnique(s[..a], t[..b]);
      assert s == s[..a] + [s[a]] && t == t[..b] + [t[b]];
    }
  }

  // ---- one page ----

  /** A cursor counts only when both of its halves are given. */
  function Cursor(before: Option<int>, beforeId: Option<int>): Option<Key> {
    if before.Some? && beforeId.Some? then Some(Key(before.value, beforeId.value)) else None
  }

  function Reversed(s: Table): Table {
    seq(|s|, i requires 0 <= i < |s| => s[|s| - 1 - i])
  }

  /** `fetch_page`: newest first up to the limit, then turned round. */
  method FetchPage(table: Table, thread: int, before: Option<int>, beforeId: Option<int>, limit: nat,
                   roles: Option<set<Role>>) returns (page: Table)
    ensures var all := Chronicle(table, thread, roles, Cursor(before, beforeId));
            page == if |all| <= limit then all else all[|all| - limit..]
  {
    var all := Chronicle(table, thread, roles, Cursor(before, beforeId));
    var rows := Reversed(all)[..if |all| <= limit then |all| else limit];
    page := Reversed(rows);
  }

  datatype Response = NotFound | Page(thread: Option<int>, messages: Table, hasMore: bool)

  const SHOWN: Option<set<Role>> := Some({User, Assistant})

  function Clamp(limit: int): nat {
    if limit < 1 then 1 else if limit > 100 then 100 else limit
  }

  /**
   The endpoint. `owners` are the threads and their users, `recent` the user's most recent thread. The page
   is the end of what lies before the cursor, and `hasMore` says whether anything was left in front of it.
   */
  method Messages(table: Table, owners: map<int, int>, recent: Option<int>, user: int, thread: Option<int>,
                  before: Option<int>, beforeId: Option<int>, limit: int) returns (response: Response)
    ensures response.NotFound? <==> thread.Some? && (thread.value !in owners || owners[thread.value] != user)
    ensures response.Page? ==> response.thread == if thread.Some? then thread else recent
    ensures response.Page? && response.thread.None? ==> response.messages == [] && !response.hasMore
    ensures response.Page? && response.thread.Some? ==>
              var all := Chronicle(table, response.thread.value, SHOWN, Cursor(before, beforeId));
              && |response.messages| == (if |all| <= Clamp(limit) then |all| else Clamp(limit))
              && response.messages == all[|all| - |response.messages|..]
              && (response.hasMore <==> |response.messages| < |all|)
  {
    var size: nat := Clamp(limit);
    if thread.Some? && (thread.value !in owners || owners[thread.value] != user) { return NotFound; }
    var resolved := if thread.Some? then thread else recent;
    if resolved.None? { return Page(None, [], false); }
    var rows := FetchPage(table, resolved.value, before, beforeId, size + 1, SHOWN);
    var hasMore := |rows| > size;
    if hasMore { rows := rows[|rows| - size..]; }
    response := Page(resolved, rows, hasMore);
  }

  // ---- from page to page ----

  /** Moving the cursor to a message of the chronicle cuts the chronicle off right before it. */
  lemma CursorCuts(table: Table, thread: int, roles: Option<set<Role>>, before: Option<Key>, k: nat)
    requires Keyed(table)
    requires k < |Chronicle(table, thread, roles, before)|
    ensures var c := Chronicle(table, thread, roles, before);
            Chronicle(table, thread, roles, Some(KeyOf(c[k]))) == c[..k]
  {
    hide Chronicle, Keyed;
    var c := Chronicle(table, thread, roles, before);
    ChronicleExact(table, thread, roles, before);
    ChronicleExact(table, thread, roles, Some(KeyOf(c[k])));
    assert c[k] in c;
    var d := Chronicle(table, thread, roles, Some(KeyOf(c[k])));
    forall m ensures m in d <==> m in c[..k] {
      if m in c[..k] { assert m in c && Less(KeyOf(m), KeyOf(c[k])); }
      if m in d {
        assert m in c;
        var i :| 0 <= i < |c| && c[i] == m;
        assert i < k;
        assert c[..k][i] == m;
      }
    }
    AscendingUnique(d, c[..k]);
  }

  lemma {:induction false} WhereAppend(table: Table, more: Table, thread: int, roles: Option<set<Role>>, before: Option<Key>)
    requires forall i :: 0 <= i < |more| ==> !Matches(more[i], thread, roles, before)
    ensures Where(table + more, thread, roles, before) == Where(table, thread, roles, before)
  {
    if more == [] {
      assert table + more == table;
    } else {
      var last := |more| - 1;
      assert (table + more)[..|table + more| - 1] == table + more[..last];
      WhereAppend(table, more[..last], thread, roles, before);
    }
  }

  /**
   Rows inserted while the reader scrolls leave a later page as it was if and only if none of them belongs
   to the thread's shown messages and lies before the cursor.
   */
  lemma LaterPagesStable(table: Table, more: Table, thread: int, roles: Option<set<Role>>, before: Option<Key>)
    requires Keyed(table + more)
    ensures Chronicle(table + more, thread, roles, before) == Chronicle(table, thread, roles, before) <==>
            forall i :: 0 <= i < |more| ==> !Matches(more[i], thread, roles, before)
  {
    if forall i :: 0 <= i < |more| ==> !Matches(more[i], thread, roles, before) {
      WhereAppend(table, more, thread, roles, before);
    } else {
      var i :| 0 <= i < |more| && Matches(more[i], thread, roles, before);
      ghost var grown := table + more;
      assert grown[|table| + i] == more[i];
      assert Keyed(table) by { forall a, b | 0 <= a < b < |table| ensures table[a].id != table[b].id { assert grown[a] == table[a] && grown[b] == table[b]; } }
      forall j | 0 <= j < |table| ensures table[j].id != more[i].id { assert grown[j] == table[j]; }
      ChronicleExact(grown, thread, roles, before);
      ChronicleExact(table, thread, roles, before);
      assert more[i] in grown;
    }
  }

  /** The table at each request: it grows at the end, by messages newer than every message of the first. */
  ghost predicate Growing(tables: nat -> Table) {
    forall j: nat ::
      && Keyed(tables(j))
      && |tables(0)| <= |tables(j)| && tables(j)[..|tables(0)|] == tables(0)
      && forall i, k :: 0 <= i < |tables(0)| <= k < |tables(j)| ==> Less(KeyOf(tables(0)[i]), KeyOf(tables(j)[k]))
  }

  /** Below the cursor of a message of the first table, a later table reads like the first. */
  lemma GrownPage(tables: nat -> Table, j: nat, thread: int, m: Message)
    requires Growing(tables) && m in tables(0)
    ensures Chronicle(tables(j), thread, SHOWN, Some(KeyOf(m))) == Chronicle(tables(0), thread, SHOWN, Some(KeyOf(m)))
  {
    hide Where, Sorted;
    var first, t := tables(0), tables(j);
    var more := t[|first|..];
    assert t == first + more;
    var i :| 0 <= i < |first| && first[i] == m;
    forall k | 0 <= k < |more| ensures !Matches(more[k], thread, SHOWN, Some(KeyOf(m))) {
      assert more[k] == t[|first| + k];
    }
    WhereAppend(first, more, thread, SHOWN, Some(KeyOf(m)));
  }

  /** What is left to read when the messages from the k-th on are shown. */
  lemma NextPage(tables: nat -> Table, j: nat, thread: int, k: nat)
    requires Growing(tables) && k < |Chronicle(tables(0), thread, SHOWN, None)|
    ensures var whole := Chronicle(tables(0), thread, SHOWN, None);
            Chronicle(tables(j), thread, SHOWN, Some(KeyOf(whole[k]))) == whole[..k]
  {
    assert Keyed(tables(0));
    hide Chronicle, Growing;
    var whole := Chronicle(tables(0), thread, SHOWN, None);
    CursorCuts(tables(0), thread, SHOWN, None, k);
    ChronicleExact(tables(0), thread, SHOWN, None);
    assert whole[k] in whole;
    GrownPage(tables, j, thread, whole[k]);
  }

  /**
   The client: the newest page of the most recent thread, then older ones, each put in front of what is
   shown, until there is no more. `tables(n)` is what the server holds at the n-th request, and the limits
   are whatever the client asks for. However the thread grows meanwhile, the turns end up being the history
   as of the first request: every user and assistant message once, oldest first.
   */
  method Scroll(tables: nat -> Table, limits: nat -> int, owners: map<int, int>, recent: Option<int>, user: int)
    returns (turns: Table)
    requires Growing(tables)
    requires recent.Some? ==> recent.value in owners && owners[recent.value] == user
    ensures recent.None? ==> turns == []
    ensures recent.Some? ==> turns == Chronicle(tables(0), recent.value, SHOWN, None)
  {
    hide Chronicle, Growing;
    var page := Messages(tables(0), owners, recent, user, None, None, None, limits(0));
    turns := page.messages;
    var thread, hasMore := page.thread, page.hasMore;
    ghost var whole := if recent.None? then [] else Chronicle(tables(0), recent.value, SHOWN, None);
    var oldest := if turns == [] then None else Some(KeyOf(turns[0]));
    var n := 1;
    while hasMore && oldest.Some?
      invariant thread == recent && (recent.Some? || !hasMore)
      invariant |turns| <= |whole| && turns == whole[|whole| - |turns|..]
      invariant hasMore <==> |turns| < |whole|
      invariant oldest == if turns == [] then None else Some(KeyOf(turns[0]))
      invariant hasMore ==> turns != []
      decreases |whole| - |turns|
    {
      NextPage(tables, n, thread.value, |whole| - |turns|);
      page := Messages(tables(n), owners, recent, user, thread, Some(oldest.value.at), Some(oldest.value.id), limits(n));
      if page.messages != [] {
        turns := page.messages + turns;
        oldest := Some(KeyOf(page.messages[0]));
      }
      hasMore := page.hasMore;
      n := n + 1;
    }
  }
}
