/** The admin users directory: a search over phone numbers, pages of fifty rows and
    in-place editing of one user at a time. The `users` table is a field, so that
    the upsert on save can be followed. */
module UsersAdmin {
  import opened Text
  import opened Sequences

  datatype User = User(id: int, name: string, phone: string, customPasswordSet: bool)

  const ItemsPerPage: nat := 50

  /** `user.phone_number.toLowerCase().includes(searchQuery.toLowerCase())`. */
  predicate Matches(u: User, query: string)
  {
    Contains(ToLower(u.phone), ToLower(query))
  }

  /** The users whose phone number contains the query, ignoring the case of Latin
      letters, in list order. */
  function FilterUsers(us: seq<User>, query: string): (r: seq<User>)
    ensures forall u :: u in r <==> u in us && Matches(u, query)
    ensures Subsequence(r, us)
    ensures forall u :: multiset(r)[u] == if Matches(u, query) then multiset(us)[u] else 0
  {
    if us == [] then []
    else
      assert us == [us[0]] + us[1..];
      var rest := FilterUsers(us[1..], query);
      if Matches(us[0], query) then [us[0]] + rest else rest
  }

  /** The empty query keeps every user. */
  lemma EmptyQueryKeepsAll(us: seq<User>)
    ensures FilterUsers(us, "") == us
  {
    forall u: User ensures Matches(u, "") {
      assert OccursAt(ToLower(u.phone), ToLower(""), 0);
    }
    EmptyQueryKeepsAllBy(us);
  }

  lemma {:induction false} EmptyQueryKeepsAllBy(us: seq<User>)
    requires forall u: User :: Matches(u, "")
    ensures FilterUsers(us, "") == us
  {
    if us != [] {
      EmptyQueryKeepsAllBy(us[1..]);
      assert [us[0]] + us[1..] == us;
    }
  }

  /** `Math.ceil(n / itemsPerPage)`. */
  function TotalPages(n: nat): (pages: nat)
  {
    (n + ItemsPerPage - 1) / ItemsPerPage
  }

  /** The pages hold every filtered user and no page is wholly empty. */
  lemma TotalPagesBounds(n: nat)
    ensures TotalPages(n) * ItemsPerPage >= n
    ensures n > 0 ==> (TotalPages(n) - 1) * ItemsPerPage < n
    ensures n == 0 <==> TotalPages(n) == 0
  {
  }

  /** `(currentPage - 1) * itemsPerPage`. */
  function StartIndex(page: int): int
  {
    (page - 1) * ItemsPerPage
  }

  /** A `slice` index: a negative one counts back from the end, then it is clamped. */
  function SliceIndex(i: int, len: nat): (r: nat)
    ensures r <= len
  {
    if i < 0 then (if len + i < 0 then 0 else len + i) else if i > len then len else i
  }

  /** `s.slice(start, end)`. */
  function Slice<T>(s: seq<T>, start: int, end: int): (r: seq<T>)
  {
    var a, b := SliceIndex(start, |s|), SliceIndex(end, |s|);
    if a < b then s[a..b] else []
  }

  /** The rows shown for a page of the filtered list. */
  function PageOf(filtered: seq<User>, page: int): seq<User>
  {
    Slice(filtered, StartIndex(page), StartIndex(page) + ItemsPerPage)
  }

  /** From page 1 on, a page is the run of at most fifty filtered users that starts at
      `StartIndex`, empty past the end; the pages up to `TotalPages` cover the list. */
  lemma PageOfSpec(filtered: seq<User>, page: int)
    requires page >= 1
    ensures var start := StartIndex(page);
      && |PageOf(filtered, page)| <= ItemsPerPage
      && (start < |filtered| ==> PageOf(filtered, page) == filtered[start..Min(start + ItemsPerPage, |filtered|)])
      && (start >= |filtered| ==> PageOf(filtered, page) == [])
      && (page <= TotalPages(|filtered|) <==> start < |filtered|)
  {
  }

  /** `users.map(user => user.id === form.id ? { ...form } : user)`. */
  function ReplaceById(us: seq<User>, form: User): (r: seq<User>)
    ensures |r| == |us|
    ensures forall i :: 0 <= i < |us| ==> r[i] == if us[i].id == form.id then form else us[i]
  {
    seq(|us|, i requires 0 <= i < |us| => if us[i].id == form.id then form else us[i])
  }

  /** Only the users with the form's id change, and they become the form; the others
      keep their place. */
  lemma ReplaceByIdSpec(us: seq<User>, form: User)
    ensures forall u :: u in ReplaceById(us, form) && u != form ==> u in us && u.id != form.id
    ensures (exists u :: u in us && u.id == form.id) <==> form in ReplaceById(us, form)
    ensures (forall u :: u in us ==> u.id != form.id) ==> ReplaceById(us, form) == us
  {
  }

  function IdsOf(us: seq<User>): set<int>
  {
    set u | u in us :: u.id
  }

  /** `upsert(form)`: the row with that id replaced, or appended when there is none. */
  function Upsert(table: seq<User>, form: User): (r: seq<User>)
    ensures form in r
    ensures forall u :: u in r ==> u == form || (u in table && u.id != form.id)
    ensures forall u :: u in table && u.id != form.id ==> u in r
  {
    if form.id in IdsOf(table) then ReplaceById(table, form) else table + [form]
  }

  class Page {
    var users: seq<User>
    var query: string
    var currentPage: int
    var editingId: Option<int>
    var editForm: Option<User>
    var totalPages: nat
    var startIndex: int
    var paginated: seq<User>
    /** The `users` table. */
    var table: seq<User>

    constructor(table: seq<User>)
      ensures this.table == table && users == [] && query == "" && currentPage == 1
      ensures editingId.None? && editForm.None?
      ensures totalPages == 0 && startIndex == 0 && paginated == []
    {
      this.table := table;
      users := [];
      query := "";
      currentPage := 1;
      editingId := None;
      editForm := None;
      totalPages := 0;
      startIndex := 0;
      paginated := [];
    }

    /** What the table and the pagination controls show for a list of users. */
    predicate Shows(us: seq<User>)
      reads this
    {
      var filtered := FilterUsers(us, query);
      && totalPages == TotalPages(|filtered|)
      && startIndex == StartIndex(currentPage)
      && paginated == PageOf(filtered, currentPage)
    }

    /** `getUsers`: a successful read replaces the users and recomputes the page. */
    method GetUsers(data: Option<seq<User>>, error: bool)
      modifies this
      ensures data.None? || error ==>
                users == old(users) && paginated == old(paginated)
                && totalPages == old(totalPages) && startIndex == old(startIndex)
      ensures data.Some? && !error ==> users == data.value && Shows(users)
      ensures query == old(query) && currentPage == old(currentPage) && table == old(table)
      ensures editingId == old(editingId) && editForm == old(editForm)
    {
      if data.Some? && !error {
        users := data.value;
        HandleSearch(None);
      }
    }

    /** `handleSearch(localUsers)`: filters the given list, or the loaded users when
        none is given, and recomputes the page. */
    method HandleSearch(localUsers: Option<seq<User>>)
      modifies this
      ensures Shows(if localUsers.Some? then localUsers.value else users)
      ensures users == old(users) && query == old(query) && currentPage == old(currentPage)
      ensures editingId == old(editingId) && editForm == old(editForm) && table == old(table)
    {
      var us := if localUsers.Some? then localUsers.value else users;
      var filtered := FilterUsers(us, query);
      totalPages := TotalPages(|filtered|);
      startIndex := StartIndex(currentPage);
      paginated := PageOf(filtered, currentPage);
    }

    /** Typing in the search box: the query changes, the page goes back to 1, and the
        effect on `searchQuery` runs the search over the loaded users. */
    method ChangeQuery(q: string)
      modifies this
      ensures query == q && currentPage == 1 && Shows(users)
      ensures users == old(users) && editingId == old(editingId) && editForm == old(editForm)
      ensures table == old(table)
    {
      query := q;
      currentPage := 1;
      HandleSearch(None);
    }

    method HandleEdit(u: User)
      modifies this
      ensures editingId == Some(u.id) && editForm == Some(u)
      ensures users == old(users) && query == old(query) && currentPage == old(currentPage)
      ensures paginated == old(paginated) && table == old(table)
      ensures totalPages == old(totalPages) && startIndex == old(startIndex)
    {
      editingId := Some(u.id);
      editForm := Some(u);
    }

    method HandleCancel()
      modifies this
      ensures editingId.None? && editForm.None?
      ensures users == old(users) && query == old(query) && currentPage == old(currentPage)
      ensures paginated == old(paginated) && table == old(table)
      ensures totalPages == old(totalPages) && startIndex == old(startIndex)
    {
      editingId := None;
      editForm := None;
    }

    /** `handleChange('name', value)`; nothing happens without a form. */
    method ChangeName(value: string)
      modifies this
      ensures editForm == if old(editForm).Some? then Some(old(editForm).value.(name := value)) else None
      ensures users == old(users) && editingId == old(editingId) && table == old(table)
      ensures query == old(query) && currentPage == old(currentPage) && paginated == old(paginated)
      ensures totalPages == old(totalPages) && startIndex == old(startIndex)
    {
      if editForm.Some? {
        editForm := Some(editForm.value.(name := value));
      }
    }

    /** `handleChange('phone_number', value)`. */
    method ChangePhone(value: string)
      modifies this
      ensures editForm == if old(editForm).Some? then Some(old(editForm).value.(phone := value)) else None
      ensures users == old(users) && editingId == old(editingId) && table == old(table)
      ensures query == old(query) && currentPage == old(currentPage) && paginated == old(paginated)
      ensures totalPages == old(totalPages) && startIndex == old(startIndex)
    {
      if editForm.Some? {
        editForm := Some(editForm.value.(phone := value));
      }
    }

    /** `handleChange('custom_password_set', checked)`. */
    method ChangePasswordSet(value: bool)
      modifies this
      ensures editForm == if old(editForm).Some? then Some(old(editForm).value.(customPasswordSet := value)) else None
      ensures users == old(users) && editingId == old(editingId) && table == old(table)
      ensures query == old(query) && currentPage == old(currentPage) && paginated == old(paginated)
      ensures totalPages == old(totalPages) && startIndex == old(startIndex)
    {
      if editForm.Some? {
        editForm := Some(editForm.value.(customPasswordSet := value));
      }
    }

    /** `handleSave`: without a form, or with a blank (trimmed) name or phone, nothing
        changes. Otherwise the user with the form's id is replaced, the row is upserted
        unless that fails (the outcome is not checked), the page is recomputed from the
        new list and editing ends. */
    method HandleSave(upsertError: bool) returns (saved: bool)
      modifies this
      ensures saved <==> old(editForm).Some? && Trim(old(editForm).value.name) != []
                                            && Trim(old(editForm).value.phone) != []
      ensures !saved ==> users == old(users) && table == old(table) && editForm == old(editForm)
                         && editingId == old(editingId) && paginated == old(paginated)
                         && totalPages == old(totalPages) && startIndex == old(startIndex)
      ensures saved ==> var form := old(editForm).value;
        && users == ReplaceById(old(users), form)
        && table == (if upsertError then old(table) else Upsert(old(table), form))
        && Shows(users)
        && editingId.None? && editForm.None?
      ensures query == old(query) && currentPage == old(currentPage)
    {
      saved := editForm.Some? && Trim(editForm.value.name) != [] && Trim(editForm.value.phone) != [];
      if saved {
        var form := editForm.value;
        var newUsers := ReplaceById(users, form);
        users := newUsers;
        if !upsertError {
          table := Upsert(table, form);
        }
        HandleSearch(Some(newUsers));
        editingId := None;
        editForm := None;
      }
    }

    /** The Previous button: never below page 1. */
    method Previous()
      modifies this
      ensures currentPage == Max(old(currentPage) - 1, 1) && currentPage >= 1
      ensures users == old(users) && query == old(query) && paginated == old(paginated)
      ensures editForm == old(editForm) && editingId == old(editingId) && table == old(table)
      ensures totalPages == old(totalPages) && startIndex == old(startIndex)
    {
      currentPage := Max(currentPage - 1, 1);
    }

    /** The Next button: never above the page count. */
    method Next()
      modifies this
      ensures currentPage == Min(old(currentPage) + 1, old(totalPages)) && currentPage <= totalPages
      ensures users == old(users) && query == old(query) && paginated == old(paginated)
      ensures editForm == old(editForm) && editingId == old(editingId) && table == old(table)
      ensures totalPages == old(totalPages) && startIndex == old(startIndex)
    {
      currentPage := Min(currentPage + 1, totalPages);
    }
  }
}
