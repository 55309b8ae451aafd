/** The dashboard actions that change a record: the daily check-in and the
    Buy Pay-ID button. */
module Dashboard {
  import opened Wrappers
  import opened UserStore
  import opened Auth

  /** Why a check-in is refused. */
  datatype CheckInError = AlreadyCheckedIn | RecordNotFound

  /** No calendar day occurs twice in a history. */
  predicate NoDuplicates(dates: seq<Date>)
  {
    forall i, j :: 0 <= i < j < |dates| ==> dates[i] != dates[j]
  }

  /** A consistent check-in history: no day twice, `lastCheckIn` set exactly
      when some day is recorded, and then naming the latest recorded day. */
  predicate HistoryWellFormed(u: User)
  {
    && NoDuplicates(u.checkedDates)
    && (u.lastCheckIn.None? <==> |u.checkedDates| == 0)
    && (u.lastCheckIn.Some? ==> u.lastCheckIn.value == u.checkedDates[|u.checkedDates| - 1])
  }

  /** The once-per-day transition on one record for the device date `today`:
      refused if `today` is the last check-in or already recorded; otherwise
      `today` becomes the last check-in and is appended to the history, and
      every other field (the balance included) is kept. */
  function CheckInRecord(u: User, today: Date): (r: Result<User, CheckInError>)
    ensures r.Failure? <==> u.lastCheckIn == Some(today) || today in u.checkedDates
    ensures r.Failure? ==> r.error == AlreadyCheckedIn
    ensures r.Success? ==> r.value.lastCheckIn == Some(today)
    ensures r.Success? ==> |r.value.checkedDates| == |u.checkedDates| + 1
                           && r.value.checkedDates[..|u.checkedDates|] == u.checkedDates
                           && r.value.checkedDates[|u.checkedDates|] == today
    ensures r.Success? ==> r.value.(lastCheckIn := u.lastCheckIn, checkedDates := u.checkedDates) == u
  {
    if u.lastCheckIn == Some(today) || today in u.checkedDates then
      Failure(AlreadyCheckedIn)
    else
      Success(u.(lastCheckIn := Some(today), checkedDates := u.checkedDates + [today]))
  }

  /** Checking in twice on the same day: the second attempt is refused, and the
      day is recorded exactly once. */
  lemma CheckInIdempotent(u: User, today: Date)
    requires CheckInRecord(u, today).Success?
    ensures CheckInRecord(CheckInRecord(u, today).value, today) == Failure(AlreadyCheckedIn)
    ensures multiset(CheckInRecord(u, today).value.checkedDates)[today] == 1
  {
  }

  /** A check-in keeps the history well formed: in particular a history without
      duplicate days stays without duplicates. */
  lemma CheckInKeepsHistoryWellFormed(u: User, today: Date)
    requires HistoryWellFormed(u)
    requires CheckInRecord(u, today).Success?
    ensures HistoryWellFormed(CheckInRecord(u, today).value)
  {
  }

  /** On a well-formed history the last-check-in test is subsumed: a check-in is
      refused exactly when the day is already recorded. */
  lemma CheckInRefusedIffRecorded(u: User, today: Date)
    requires HistoryWellFormed(u)
    ensures CheckInRecord(u, today).Failure? <==> today in u.checkedDates
  {
  }

  /** Check-ins on two different days record both, in order. */
  lemma CheckInTwoDays(u: User, d1: Date, d2: Date)
    requires d1 != d2
    requires CheckInRecord(u, d1).Success?
    requires u.lastCheckIn != Some(d2)
    requires d2 !in u.checkedDates
    ensures CheckInRecord(CheckInRecord(u, d1).value, d2).Success?
    ensures CheckInRecord(CheckInRecord(u, d1).value, d2).value.checkedDates == u.checkedDates + [d1, d2]
  {
  }

  /** The record after one check-in click per day in `days`, in order; a
      refused click leaves the record as it was. */
  function CheckInDays(u: User, days: seq<Date>): User
    decreases |days|
  {
    if |days| == 0 then u
    else
      var next := match CheckInRecord(u, days[0]) case Success(v) => v case Failure(_) => u;
      CheckInDays(next, days[1..])
  }

  /** Over any run of daily clicks the history only grows: earlier days stay in
      place, every clicked day ends up recorded, nothing but clicked days is
      added, no day is recorded twice, and every other field is kept. */
  lemma {:induction false} CheckInDaysHistory(u: User, days: seq<Date>)
    requires HistoryWellFormed(u)
    ensures var r := CheckInDays(u, days);
            && HistoryWellFormed(r)
            && |u.checkedDates| <= |r.checkedDates|
            && r.checkedDates[..|u.checkedDates|] == u.checkedDates
            && (forall i :: 0 <= i < |days| ==> days[i] in r.checkedDates)
            && (forall i :: |u.checkedDates| <= i < |r.checkedDates| ==> r.checkedDates[i] in days)
            && r.(lastCheckIn := u.lastCheckIn, checkedDates := u.checkedDates) == u
    decreases |days|
  {
    if |days| > 0 {
      var d := days[0];
      var next := match CheckInRecord(u, d) case Success(v) => v case Failure(_) => u;
      if CheckInRecord(u, d).Success? {
        CheckInKeepsHistoryWellFormed(u, d);
      } else {
        CheckInRefusedIffRecorded(u, d);
      }
      assert d in next.checkedDates;
      assert next.checkedDates[..|u.checkedDates|] == u.checkedDates;
      CheckInDaysHistory(next, days[1..]);
      var r := CheckInDays(next, days[1..]);
      assert r == CheckInDays(u, days);
      assert r.checkedDates[..|next.checkedDates|] == next.checkedDates;
      assert r.checkedDates[..|u.checkedDates|] == u.checkedDates by {
        assert r.checkedDates[..|u.checkedDates|] == r.checkedDates[..|next.checkedDates|][..|u.checkedDates|];
      }
      forall i | 0 <= i < |days|
        ensures days[i] in r.checkedDates
      {
        if i == 0 {
          var j :| 0 <= j < |next.checkedDates| && next.checkedDates[j] == d;
          assert r.checkedDates[j] == next.checkedDates[j];
        } else {
          assert days[i] == days[1..][i - 1];
        }
      }
      forall i | |u.checkedDates| <= i < |r.checkedDates|
        ensures r.checkedDates[i] in days
      {
        if i < |next.checkedDates| {
          assert r.checkedDates[i] == next.checkedDates[i] == d;
        } else {
          assert r.checkedDates[i] in days[1..];
        }
      }
    }
  }

  /** What the check-in click handler leaves behind: the store, the in-page
      record object, and the refusal if there was one. */
  datatype Click = Click(users: seq<User>, snapshot: User, refused: Option<CheckInError>)

  /** The check-in click handler as written: it updates the record object the
      dashboard was populated with at page load (`snapshot`), not the stored
      record, and writes that object back over the stored one. */
  function CheckInClick(users: seq<User>, snapshot: User, today: Date): (r: Click)
    ensures r.refused.Some? <==> CheckInRecord(snapshot, today).Failure?
    ensures r.refused.Some? ==> r.users == users && r.snapshot == snapshot
    ensures r.refused.None? ==> r.snapshot == CheckInRecord(snapshot, today).value
    ensures r.refused.None? && snapshot.id != "" ==> FindById(r.users, snapshot.id) == Some(r.snapshot)
    ensures forall id :: id != snapshot.id ==> FindById(r.users, id) == FindById(users, id)
  {
    match CheckInRecord(snapshot, today)
    case Failure(e) => Click(users, snapshot, Some(e))
    case Success(v) =>
      var stored := Persist(users, v);
      assert v.id != "" ==> FindById(stored, v.id) == Some(v) by {
        if v.id != "" { PersistThenFindById(users, v); }
      }
      assert forall id :: id != v.id ==> FindById(stored, id) == FindById(users, id) by {
        forall id | id != v.id
          ensures FindById(stored, id) == FindById(users, id)
        {
          PersistKeepsOtherIds(users, v, id);
        }
      }
      Click(stored, v, None)
  }

  /** The Buy Pay-ID click handler: sets `hasPayId` on the logged-in account and
      changes nothing else; with no session, or one naming a missing account,
      nothing changes. */
  function BuyPayId(st: State): (r: State)
    ensures r.session == st.session
    ensures |r.users| == |st.users|
    ensures CurrentIndex(st).None? ==> r == st
    ensures CurrentIndex(st).Some? ==>
              && r.users[CurrentIndex(st).value] == st.users[CurrentIndex(st).value].(hasPayId := true)
              && forall i :: 0 <= i < |st.users| && i != CurrentIndex(st).value ==> r.users[i] == st.users[i]
  {
    match st.session
    case None => st
    case Some(id) =>
      if id == "" then st
      else
        match FindById(st.users, id)
        case None => st
        case Some(u) => State(Persist(st.users, u.(hasPayId := true)), st.session)
  }

  /** Buying a Pay-ID twice is the same as buying it once. */
  lemma BuyPayIdIdempotent(st: State)
    ensures BuyPayId(BuyPayId(st)) == BuyPayId(st)
  {
  }

  /** The as-written check-in loses a Pay-ID bought after the dashboard was
      loaded: the stale page-load record is written over the updated one. */
  lemma CheckInClickLosesPayId()
    ensures var u := NewAccount("u1", "Ada", "ada@x.com", "pw1", "2024-01-01T00:00:00.000Z");
            var st := BuyPayId(State([u], Some("u1")));
            && FindById(st.users, "u1").value.hasPayId
            && !FindById(CheckInClick(st.users, u, "2024-01-01").users, "u1").value.hasPayId
  {
  }

  /** The check-in as evidently intended: the record with the dashboard's
      account id is re-read from the store at click time, checked in, and
      written back. Only that record's `lastCheckIn` and `checkedDates` change. */
  function CheckIn(users: seq<User>, id: string, today: Date): (r: Result<seq<User>, CheckInError>)
    ensures r == Failure(RecordNotFound) <==> id == "" || IndexOfId(users, id).None?
    ensures r == Failure(AlreadyCheckedIn) <==>
              id != "" && IndexOfId(users, id).Some? && CheckInRecord(users[IndexOfId(users, id).value], today).Failure?
    ensures r.Success? ==>
              var k := IndexOfId(users, id).value;
              && |r.value| == |users|
              && r.value[k] == CheckInRecord(users[k], today).value
              && r.value[k].(lastCheckIn := users[k].lastCheckIn, checkedDates := users[k].checkedDates) == users[k]
              && forall i :: 0 <= i < |users| && i != k ==> r.value[i] == users[i]
  {
    if id == "" then Failure(RecordNotFound)
    else
      match IndexOfId(users, id)
      case None => Failure(RecordNotFound)
      case Some(k) =>
        match CheckInRecord(users[k], today)
        case Failure(e) => Failure(e)
        case Success(v) => Success(Persist(users, v))
  }

  /** With the corrected check-in, a Pay-ID bought earlier survives the check-in. */
  lemma BuyPayIdThenCheckInKeepsPayId(st: State, today: Date)
    requires CurrentIndex(st).Some?
    requires CheckIn(BuyPayId(st).users, st.session.value, today).Success?
    ensures FindById(CheckIn(BuyPayId(st).users, st.session.value, today).value, st.session.value).value.hasPayId
  {
  }

  /** Repeating the corrected check-in on the same day is refused and leaves the
      store as the first check-in left it. */
  lemma CheckInStoreIdempotent(users: seq<User>, id: string, today: Date)
    requires CheckIn(users, id, today).Success?
    ensures CheckIn(CheckIn(users, id, today).value, id, today) == Failure(AlreadyCheckedIn)
  {
  }

  /** Every record of the store has a well-formed check-in history. */
  predicate HistoriesWellFormed(users: seq<User>)
  {
    forall i :: 0 <= i < |users| ==> HistoryWellFormed(users[i])
  }

  /** The corrected check-in keeps every history in the store duplicate-free
      and consistent. */
  lemma CheckInKeepsHistoriesWellFormed(users: seq<User>, id: string, today: Date)
    requires HistoriesWellFormed(users)
    requires CheckIn(users, id, today).Success?
    ensures HistoriesWellFormed(CheckIn(users, id, today).value)
  {
  }

  /** Buy Pay-ID keeps every history in the store well formed. */
  lemma BuyPayIdKeepsHistoriesWellFormed(st: State)
    requires HistoriesWellFormed(st.users)
    ensures HistoriesWellFormed(BuyPayId(st).users)
  {
  }

  /** A new account starts with an empty history, so signup keeps every history
      in the store well formed. */
  lemma SignupKeepsHistoriesWellFormed(st: State, nameField: string, emailField: string,
                                       password: string, id: string, createdAt: string)
    requires HistoriesWellFormed(st.users)
    ensures Signup(st, nameField, emailField, password, id, createdAt).Success? ==>
              HistoriesWellFormed(Signup(st, nameField, emailField, password, id, createdAt).value.users)
  {
  }

  /** Buy Pay-ID and the corrected check-in rewrite one existing record without
      touching its id or e-mail, so unique ids and unique e-mails stay unique. */
  lemma UpdatesKeepStoreUnique(st: State, id: string, today: Date)
    requires IdsUnique(st.users) && EmailsUnique(st.users)
    ensures IdsUnique(BuyPayId(st).users) && EmailsUnique(BuyPayId(st).users)
    ensures CheckIn(st.users, id, today).Success? ==>
              IdsUnique(CheckIn(st.users, id, today).value) && EmailsUnique(CheckIn(st.users, id, today).value)
  {
  }

  /** Signing up on an empty store with every field filled in stores exactly
      one account, built from the trimmed values, and logs it in. */
  lemma SignupOnEmptyStore(nameField: string, emailField: string, password: string, id: string, createdAt: string)
    requires !Text.Blank(nameField) && !Text.Blank(emailField) && password != ""
    ensures Signup(State([], None), nameField, emailField, password, id, createdAt)
            == Success(State([NewAccount(id, Text.Trim(nameField), Text.Trim(emailField), password, createdAt)], Some(id)))
  {
    var u := NewAccount(id, Text.Trim(nameField), Text.Trim(emailField), password, createdAt);
    assert FindByEmail([], Text.Trim(emailField)).None?;
    assert Persist([], u) == [u];
  }

  /** Checking in on one day, retrying it, then checking in on the next day:
      the retry is refused and both days end up recorded once, in order. */
  lemma CheckInScenario(u: User)
    requires u.id == "u3k9x2ab" && u.lastCheckIn.None? && u.checkedDates == []
    ensures CheckIn([u], "u3k9x2ab", "2024-01-01").Success?
    ensures var c1 := CheckIn([u], "u3k9x2ab", "2024-01-01").value;
            && CheckIn(c1, "u3k9x2ab", "2024-01-01") == Failure(AlreadyCheckedIn)
            && CheckIn(c1, "u3k9x2ab", "2024-01-02").Success?
            && CheckIn(c1, "u3k9x2ab", "2024-01-02").value[0].checkedDates == ["2024-01-01", "2024-01-02"]
  {
  }
}
