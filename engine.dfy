/** The bot's per-user state engine as pure step functions: the state is the
    checkins table and the in-memory map of transformed users; each command,
    each sweep tick and the start-up load is one step from a state to the
    next. Storage outcomes and random draws are inputs (an Oracle). The class
    in module Bot performs the same steps in place. */
module Engine {
  import opened Options
  import opened Text
  import opened TimePolicy
  import opened Store

  /** The checkins table and transformedUsers (username -> transform end). */
  datatype BotState = BotState(store: Table, transformed: map<string, int>)

  /** The chat message a command answers with, by kind; Render gives the
      exact text the bot sends. */
  datatype Reply =
    | CheckinError(user: string)
    | FirstCheckin(user: string)
    | CheckedIn(user: string, streak: int)
    | AlreadyCheckedIn(user: string)
    | StillTransformed(user: string, animal: string, end: int, now: int)
    | TransformError(user: string)
    | Transformed(user: string, animal: string, end: int, now: int)

  datatype Outcome = Outcome(next: BotState, reply: Reply)

  /** What the environment decides for one command: whether the SELECT and
      whether the INSERT/UPDATE fail, and the two Math.random() draws. */
  datatype Oracle = Oracle(readFails: bool, writeFails: bool, animalDraw: nat, durationDraw: nat)

  predicate ValidOracle(o: Oracle) {
    IsDraw(o.animalDraw) && IsDraw(o.durationDraw)
  }

  // ---------------------------------------------------------------------
  // Replies

  /** The exact text sent for a reply: every reply opens by naming its
      user, with an "@" mention except in the success reply of !tf. */
  function Render(r: Reply): (t: string)
    ensures Addressee(r) <= t
  {
    var head := Addressee(r);
    var t := head + Message(r);
    assert t[..|head|] == head;
    t
  }

  function Addressee(r: Reply): string {
    if r.Transformed? then r.user + " " else "@" + r.user
  }

  /** The text of a reply after its addressee. */
  function Message(r: Reply): string {
    match r
    case CheckinError(_) => ", an error occurred. Please try again later."
    case FirstCheckin(_) => ", you have checked in for the first time! Your current streak is 1 day."
    case CheckedIn(_, streak) => " has checked in! You're currently on a " + IntToString(streak) + " day streak."
    case AlreadyCheckedIn(_) => ", you have already checked in today. Please try again later!"
    case StillTransformed(_, animal, end, now) =>
      " is currently TF'd into a " + animal + " for " + RemainingTime(end, now) + "."
    case TransformError(_) => ", an error occurred."
    case Transformed(_, animal, end, now) =>
      "has TF'd into a " + animal + " for the next " + RemainingTime(end, now) + "."
  }

  // ---------------------------------------------------------------------
  // !checkin

  function CheckinNext(s: BotState, user: string, now: int, o: Oracle): Outcome {
    if o.readFails then Outcome(s, CheckinError(user))
    else if user in s.store then
      var row := s.store[user];
      if !IsCheckinEligible(now, row.lastCheckin) then Outcome(s, AlreadyCheckedIn(user))
      else if o.writeFails then Outcome(s, CheckinError(user))
      else Outcome(s.(store := s.store[user := CheckedInRow(row, now)]), CheckedIn(user, row.streak + 1))
    else if o.writeFails then Outcome(s, CheckinError(user))
    else Outcome(s.(store := s.store[user := FirstCheckinRow(now)]), FirstCheckin(user))
  }

  /** A first check-in inserts exactly streak 1 at now and says so. */
  lemma CheckinFirstTime(s: BotState, user: string, now: int, o: Oracle)
    requires user !in s.store && !o.readFails && !o.writeFails
    ensures var r := CheckinNext(s, user, now, o);
      && r.next.store == s.store[user := UserRecord(1, now, None, None, None)]
      && r.next.transformed == s.transformed
      && r.reply == FirstCheckin(user)
  {
  }

  /** A repeat check-in changes the row exactly when more than one day has
      passed and both storage steps succeed; then the streak grows by one and
      the check-in time becomes now. */
  lemma CheckinRepeat(s: BotState, user: string, now: int, o: Oracle)
    requires user in s.store
    ensures var r := CheckinNext(s, user, now, o);
      var row := s.store[user];
      var accepted := !o.readFails && !o.writeFails && now - row.lastCheckin > 24 * 60 * 60 * 1000;
      && (accepted ==> r.next.store == s.store[user := row.(streak := row.streak + 1, lastCheckin := now)]
                       && r.reply == CheckedIn(user, row.streak + 1))
      && (!accepted ==> r.next == s)
      && (!o.readFails && now - row.lastCheckin <= 24 * 60 * 60 * 1000 ==> r.reply == AlreadyCheckedIn(user))
  {
  }

  /** A failed storage step changes nothing and yields the generic error. */
  lemma CheckinStorageFailure(s: BotState, user: string, now: int, o: Oracle)
    requires o.readFails || (o.writeFails && (user !in s.store || IsCheckinEligible(now, s.store[user].lastCheckin)))
    ensures CheckinNext(s, user, now, o) == Outcome(s, CheckinError(user))
  {
  }

  /** A check-in touches at most the user's own row, never the map, and never
      lowers a streak. */
  lemma CheckinFrame(s: BotState, user: string, now: int, o: Oracle)
    ensures var r := CheckinNext(s, user, now, o);
      && r.next.transformed == s.transformed
      && (forall v :: v != user ==> (v in r.next.store <==> v in s.store))
      && (forall v :: v in s.store && v != user ==> r.next.store[v] == s.store[v])
      && (user in s.store ==> user in r.next.store && r.next.store[user].streak - s.store[user].streak in {0, 1})
  {
    var r := CheckinNext(s, user, now, o);
    if o.readFails || (user in s.store && !IsCheckinEligible(now, s.store[user].lastCheckin)) || o.writeFails {
      assert r.next == s;
    } else if user in s.store {
      assert r.next.store == s.store[user := CheckedInRow(s.store[user], now)];
    } else {
      assert r.next.store == s.store[user := FirstCheckinRow(now)];
    }
  }

  // ---------------------------------------------------------------------
  // !tf

  /** getAnimalFromDatabase: the row's animal, "unknown" on a read error or a
      missing row; a NULL animal prints as "null". */
  function StoredAnimal(t: Table, user: string, readFails: bool): (a: string)
    ensures a == "unknown" || a == "null" || (user in t && t[user].animal == Some(a))
  {
    if readFails || user !in t then "unknown"
    else match t[user].animal
      case Some(a) => a
      case None => "null"
  }

  /** The animal and end time a new transformation draws. */
  function DrawnAnimal(animals: seq<string>, o: Oracle): string
    requires |animals| > 0 && ValidOracle(o)
  {
    animals[RandomAnimalIndex(o.animalDraw, |animals|)]
  }

  function DrawnEnd(now: int, o: Oracle): int
    requires ValidOracle(o)
  {
    now + RandomTransformDuration(o.durationDraw)
  }

  function TransformNext(s: BotState, user: string, now: int, animals: seq<string>, o: Oracle): Outcome
    requires |animals| > 0 && ValidOracle(o)
  {
    if user in s.transformed then
      Outcome(s, StillTransformed(user, StoredAnimal(s.store, user, o.readFails), s.transformed[user], now))
    else
      var animal := DrawnAnimal(animals, o);
      var end := DrawnEnd(now, o);
      if o.writeFails then Outcome(s, TransformError(user))
      else Outcome(BotState(SetTransform(s.store, user, animal, now, end), s.transformed[user := end]),
                   Transformed(user, animal, end, now))
  }

  /** A user already in the map gets the read-only reply, with "none" as the
      remaining time once the entry has expired but not yet been swept. */
  lemma TransformWhileTransformed(s: BotState, user: string, now: int, animals: seq<string>, o: Oracle)
    requires |animals| > 0 && ValidOracle(o)
    requires user in s.transformed
    ensures var r := TransformNext(s, user, now, animals, o);
      && r.next == s
      && r.reply == StillTransformed(user, StoredAnimal(s.store, user, o.readFails), s.transformed[user], now)
      && (now >= s.transformed[user] ==> RemainingTime(s.transformed[user], now) == "none")
  {
  }

  /** A new transformation: on success the user's end time is now plus a
      whole number of minutes between 2 and one week, the drawn animal is one
      of the labels, and no other map entry changes; on failure nothing
      changes. */
  lemma TransformNew(s: BotState, user: string, now: int, animals: seq<string>, o: Oracle)
    requires |animals| > 0 && ValidOracle(o)
    requires user !in s.transformed
    ensures var r := TransformNext(s, user, now, animals, o);
      && (o.writeFails ==> r.next == s && r.reply == TransformError(user))
      && (!o.writeFails ==>
            && user in r.next.transformed
            && r.next.transformed.Keys == s.transformed.Keys + {user}
            && (forall v :: v in s.transformed ==> r.next.transformed[v] == s.transformed[v])
            && 2 * 60000 <= r.next.transformed[user] - now <= 7 * 24 * 60 * 60000
            && (r.next.transformed[user] - now) % 60000 == 0
            && DrawnAnimal(animals, o) in animals
            && r.reply == Transformed(user, DrawnAnimal(animals, o), DrawnEnd(now, o), now))
  {
    var end := DrawnEnd(now, o);
    DrawnEndBounds(now, o);
    assert DrawnAnimal(animals, o) == animals[RandomAnimalIndex(o.animalDraw, |animals|)];
    if !o.writeFails {
      assert TransformNext(s, user, now, animals, o).next.transformed == s.transformed[user := end];
    }
  }

  /** The end time a new transformation draws lies 2 minutes to one week
      ahead, on a whole minute. */
  lemma DrawnEndBounds(now: int, o: Oracle)
    requires ValidOracle(o)
    ensures 2 * 60000 <= DrawnEnd(now, o) - now <= 7 * 24 * 60 * 60000
    ensures (DrawnEnd(now, o) - now) % 60000 == 0
  {
    var ms := RandomTransformDuration(o.durationDraw);
    assert DrawnEnd(now, o) - now == ms;
  }

  /** The UPDATE matches rows by username: a user with a row gets the drawn
      animal and interval, a user without one gets no row at all, yet is
      still entered in the map. */
  lemma TransformStore(s: BotState, user: string, now: int, animals: seq<string>, o: Oracle)
    requires |animals| > 0 && ValidOracle(o)
    requires user !in s.transformed && !o.writeFails
    ensures var r := TransformNext(s, user, now, animals, o);
      var end := r.next.transformed[user];
      && (user in s.store ==>
            r.next.store == s.store[user := s.store[user].(animal := Some(DrawnAnimal(animals, o)),
                                                           transformStart := Some(now),
                                                           transformEnd := Some(end))])
      && (user !in s.store ==> r.next.store == s.store)
  {
  }

  /** getAnimalFromDatabase answers "unknown" on a read error or a missing
      row, "null" for a row whose animal is NULL, and the row's animal
      otherwise. */
  lemma StoredAnimalCases(t: Table, user: string, readFails: bool)
    ensures readFails || user !in t ==> StoredAnimal(t, user, readFails) == "unknown"
    ensures !readFails && user in t && t[user].animal.None? ==> StoredAnimal(t, user, readFails) == "null"
    ensures !readFails && user in t && t[user].animal.Some? ==>
      StoredAnimal(t, user, readFails) == t[user].animal.value
  {
  }

  /** A user with a row who transforms, and asks again at any later time
      before a sweep, is told the animal and end time that were drawn. */
  lemma TransformThenAsk(s: BotState, user: string, now: int, later: int,
                         animals: seq<string>, o: Oracle, o2: Oracle)
    requires |animals| > 0 && ValidOracle(o) && ValidOracle(o2)
    requires user in s.store && user !in s.transformed && !o.writeFails && !o2.readFails
    ensures var s1 := TransformNext(s, user, now, animals, o).next;
      var r2 := TransformNext(s1, user, later, animals, o2);
      && r2.next == s1
      && r2.reply == StillTransformed(user, DrawnAnimal(animals, o), DrawnEnd(now, o), later)
  {
    var s1 := TransformNext(s, user, now, animals, o).next;
    TransformStore(s, user, now, animals, o);
    assert s1.transformed == s.transformed[user := DrawnEnd(now, o)];
    assert s1.store[user].animal == Some(DrawnAnimal(animals, o));
  }

  // ---------------------------------------------------------------------
  // Sweep tick

  /** The users whose transformation has ended by now (strictly). */
  function Expired(t: map<string, int>, now: int): set<string> {
    set u | u in t && now > t[u]
  }

  /** One tick of the sweep: drop every expired entry from the map and clear
      the transformation columns of those users whose UPDATE does not fail
      (failing). A failed clear does not restore the map entry. */
  function SweepNext(s: BotState, now: int, failing: set<string>): BotState {
    BotState(ClearTransforms(s.store, Expired(s.transformed, now) - failing),
             map u | u in s.transformed && now <= s.transformed[u] :: s.transformed[u])
  }

  /** Exactly the entries with now > end leave the map; the others stay with
      their end times. */
  lemma SweepMap(s: BotState, now: int, failing: set<string>)
    ensures var t := SweepNext(s, now, failing).transformed;
      && (forall u :: u in t <==> u in s.transformed && s.transformed[u] >= now)
      && (forall u :: u in t ==> t[u] == s.transformed[u])
  {
  }

  /** The sweep clears only animal, transform_start and transform_end, and
      only for expired users whose clear succeeded; streaks and check-in
      times never change, and no row appears or disappears. */
  lemma SweepStore(s: BotState, now: int, failing: set<string>)
    ensures var t := SweepNext(s, now, failing).store;
      && t.Keys == s.store.Keys
      && (forall u :: u in t ==> t[u].streak == s.store[u].streak && t[u].lastCheckin == s.store[u].lastCheckin)
      && (forall u :: u in t && u in s.transformed && now > s.transformed[u] && u !in failing ==>
            t[u].animal.None? && t[u].transformStart.None? && t[u].transformEnd.None?)
      && (forall u :: u in t && !(u in s.transformed && now > s.transformed[u] && u !in failing) ==>
            t[u] == s.store[u])
  {
  }

  /** A second tick at the same time finds nothing more to remove. */
  lemma SweepIdempotent(s: BotState, now: int, failing: set<string>, failing': set<string>)
    ensures var s1 := SweepNext(s, now, failing);
      SweepNext(s1, now, failing').transformed == s1.transformed
  {
  }

  // ---------------------------------------------------------------------
  // Start-up load

  /** loadTransformedUsers: add every row whose transform_end is after now
      to the map, over what is already there; a failed query adds nothing. */
  function BootstrapNext(s: BotState, now: int, queryFails: bool): BotState {
    if queryFails then s else s.(transformed := s.transformed + RowsTransformedAfter(s.store, now))
  }

  /** Exactly the rows with transform_end > now are loaded; earlier entries
      are kept unless a row overrides them; the table does not change. */
  lemma BootstrapLoads(s: BotState, now: int, queryFails: bool)
    ensures var b := BootstrapNext(s, now, queryFails);
      && b.store == s.store
      && (queryFails ==> b == s)
      && (!queryFails ==>
            && (forall u :: u in b.transformed <==>
                  u in s.transformed || (u in s.store && s.store[u].transformEnd.Some? && s.store[u].transformEnd.value > now))
            && (forall u :: u in s.store && s.store[u].transformEnd.Some? && s.store[u].transformEnd.value > now ==>
                  b.transformed[u] == s.store[u].transformEnd.value)
            && (forall u :: u in s.transformed && !(u in s.store && s.store[u].transformEnd.Some? && s.store[u].transformEnd.value > now) ==>
                  b.transformed[u] == s.transformed[u]))
  {
  }

  // ---------------------------------------------------------------------
  // The map mirrors the table

  /** Whenever a user is both in the map and has a transform_end in the
      table, the two end times agree. */
  predicate Mirrors(s: BotState) {
    forall u :: u in s.transformed && u in s.store && s.store[u].transformEnd.Some? ==>
      s.store[u].transformEnd.value == s.transformed[u]
  }

  predicate Coherent(s: BotState) {
    WellFormedTable(s.store) && Mirrors(s)
  }

  /** Loading a well-formed table into an empty map gives a coherent state. */
  lemma StartupCoherent(t: Table, now: int, queryFails: bool)
    requires WellFormedTable(t)
    ensures Coherent(BootstrapNext(BotState(t, map[]), now, queryFails))
  {
  }

  lemma CheckinKeepsCoherent(s: BotState, user: string, now: int, o: Oracle)
    requires Coherent(s)
    ensures Coherent(CheckinNext(s, user, now, o).next)
  {
    var n := CheckinNext(s, user, now, o).next;
    if n != s {
      assert n.transformed == s.transformed;
      if user in s.store {
        assert n.store == s.store[user := CheckedInRow(s.store[user], now)];
      } else {
        assert n.store == s.store[user := FirstCheckinRow(now)];
      }
    }
  }

  lemma TransformKeepsCoherent(s: BotState, user: string, now: int, animals: seq<string>, o: Oracle)
    requires |animals| > 0 && ValidOracle(o)
    requires Coherent(s)
    ensures Coherent(TransformNext(s, user, now, animals, o).next)
  {
    var n := TransformNext(s, user, now, animals, o).next;
    if user !in s.transformed && !o.writeFails {
      var end := DrawnEnd(now, o);
      assert n.transformed == s.transformed[user := end];
      if user in s.store {
        assert n.store[user].transformEnd == Some(end);
        assert WellFormedRow(n.store[user]);
      } else {
        assert n.store == s.store;
      }
    }
  }

  lemma SweepKeepsCoherent(s: BotState, now: int, failing: set<string>)
    requires Coherent(s)
    ensures Coherent(SweepNext(s, now, failing))
  {
    var n := SweepNext(s, now, failing);
    forall u | u in n.store
      ensures WellFormedRow(n.store[u])
    {
      assert WellFormedRow(s.store[u]);
    }
    forall u | u in n.transformed && u in n.store && n.store[u].transformEnd.Some?
      ensures n.store[u].transformEnd.value == n.transformed[u]
    {
      assert n.store[u] == s.store[u];
    }
  }

  lemma BootstrapKeepsCoherent(s: BotState, now: int, queryFails: bool)
    requires Coherent(s)
    ensures Coherent(BootstrapNext(s, now, queryFails))
  {
  }

  /** A failed clear leaves the row's transformation in the table after the
      map has forgotten the user, and nothing heals it later: a sweep looks
      only at the map, and a start-up load at any later time skips the row
      because its end has passed. */
  lemma FailedClearPersists(s: BotState, u: string, now: int, later: int)
    requires Coherent(s)
    requires u in s.transformed && u in s.store && now > s.transformed[u]
    requires s.store[u].transformEnd.Some?
    requires later >= now
    ensures var s1 := SweepNext(s, now, {u});
      && u !in s1.transformed && u in s1.store && s1.store[u] == s.store[u]
      && SweepNext(s1, later, {}).store[u] == s.store[u]
      && u !in BootstrapNext(s1, later, false).transformed
  {
    var s1 := SweepNext(s, now, {u});
    assert u !in RowsTransformedAfter(s1.store, later);
  }

  // ---------------------------------------------------------------------
  // Scenarios

  const Hour: int := 60 * 60 * 1000

  /** First check-in at t0, a second 23 hours later is refused, a third 25
      hours after t0 is accepted with streak 2. */
  lemma CheckinScenario(s: BotState, t0: int, o: Oracle)
    requires "alice" !in s.store && !o.readFails && !o.writeFails
    ensures var r1 := CheckinNext(s, "alice", t0, o);
      var r2 := CheckinNext(r1.next, "alice", t0 + 23 * Hour, o);
      var r3 := CheckinNext(r2.next, "alice", t0 + 25 * Hour, o);
      && r1.next.store["alice"].streak == 1
      && r2.next == r1.next && r2.reply == AlreadyCheckedIn("alice")
      && r3.next.store["alice"].streak == 2 && r3.next.store["alice"].lastCheckin == t0 + 25 * Hour
  {
  }

  /** bob, who has a row, transforms at t0; a sweep tick one week and one
      minute later removes him from the map and clears his row. */
  lemma TransformScenario(s: BotState, t0: int, animals: seq<string>, o: Oracle)
    requires |animals| > 0 && ValidOracle(o) && !o.writeFails
    requires "bob" in s.store && "bob" !in s.transformed
    ensures var s1 := TransformNext(s, "bob", t0, animals, o).next;
      var s2 := SweepNext(s1, t0 + 7 * 24 * Hour + 60000, {});
      && s1.store["bob"].animal.Some? && s1.store["bob"].animal.value in animals
      && t0 + 2 * 60000 <= s1.transformed["bob"] <= t0 + 7 * 24 * Hour
      && "bob" !in s2.transformed
      && s2.store["bob"] == ClearedRow(s1.store["bob"])
  {
    var s1 := TransformNext(s, "bob", t0, animals, o).next;
    TransformNew(s, "bob", t0, animals, o);
    TransformStore(s, "bob", t0, animals, o);
    var later := t0 + 7 * 24 * Hour + 60000;
    assert "bob" in Expired(s1.transformed, later);
    SweepMap(s1, later, {});
    SweepStore(s1, later, {});
  }

  /** One row ends an hour from now, another ended an hour ago: only the
      first is loaded. */
  lemma BootstrapScenario(now: int, a: UserRecord, b: UserRecord)
    requires a.transformEnd == Some(now + Hour) && b.transformEnd == Some(now - Hour)
    ensures BootstrapNext(BotState(map["amy" := a, "ben" := b], map[]), now, false).transformed
      == map["amy" := now + Hour]
  {
    var t := map["amy" := a, "ben" := b];
    assert RowsTransformedAfter(t, now).Keys == {"amy"};
  }

  // ---------------------------------------------------------------------
  // Command dispatch

  datatype Command = TransformCommand | CheckinCommand | UnknownCommand

  /** msg.trim().toLowerCase() matched against the two commands. */
  function CommandOf(msg: string): (c: Command)
    ensures c != UnknownCommand ==> Trim(msg) != [] && Trim(msg)[0] == '!'
  {
    var name := ToLower(Trim(msg));
    if name == "!tf" then TransformCommand
    else if name == "!checkin" then CheckinCommand
    else UnknownCommand
  }

  /** The sender's tags: display-name may be absent or empty. */
  datatype Sender = Sender(displayName: Option<string>, login: string)

  /** context["display-name"] || context["username"]. */
  function SenderName(c: Sender): string {
    if c.displayName.Some? && c.displayName.value != "" then c.displayName.value else c.login
  }

  /** onMessageHandler: the bot's own messages and unknown commands change
      nothing and get no reply. */
  function MessageNext(s: BotState, isSelf: bool, msg: string, sender: Sender, now: int,
                       animals: seq<string>, o: Oracle): (BotState, Option<Reply>)
    requires |animals| > 0 && ValidOracle(o)
  {
    if isSelf then (s, None)
    else match CommandOf(msg)
      case TransformCommand =>
        var r := TransformNext(s, SenderName(sender), now, animals, o);
        (r.next, Some(r.reply))
      case CheckinCommand =>
        var r := CheckinNext(s, SenderName(sender), now, o);
        (r.next, Some(r.reply))
      case UnknownCommand => (s, None)
  }

  /** Surrounding whitespace and letter case do not matter. */
  lemma TransformCommandExample()
    ensures CommandOf("  !TF\n") == TransformCommand
  {
    TrimPadded("  ", "!TF", "\n");
    assert "  " + "!TF" + "\n" == "  !TF\n";
    ToLowerOf("!TF", "!tf");
  }

  lemma CheckinCommandExample()
    ensures CommandOf("!CheckIn") == CheckinCommand
  {
    TrimKeeps("!CheckIn");
    ToLowerOf("!CheckIn", "!checkin");
  }

  /** The Kelvin sign lower-cases to 'k', so it spells the command too. */
  lemma KelvinCheckinExample()
    ensures CommandOf("!chec\U{212A}in") == CheckinCommand
  {
    TrimKeeps("!chec\U{212A}in");
    ToLowerOf("!chec\U{212A}in", "!checkin");
  }

  /** Anything after the command word makes the command unknown. */
  lemma TrailingWordsExample()
    ensures CommandOf("!tf now") == UnknownCommand
  {
    TrimKeeps("!tf now");
    assert |ToLower("!tf now")| == 7;
  }

  /** The bot's own messages and unrecognised commands change nothing and get
      no reply; a recognised command always gets one. */
  lemma MessageDispatch(s: BotState, isSelf: bool, msg: string, sender: Sender, now: int,
                        animals: seq<string>, o: Oracle)
    requires |animals| > 0 && ValidOracle(o)
    ensures var m := MessageNext(s, isSelf, msg, sender, now, animals, o);
      && (isSelf || CommandOf(msg) == UnknownCommand ==> m.0 == s && m.1 == None)
      && (!isSelf && CommandOf(msg) == CheckinCommand ==>
            m.0 == CheckinNext(s, SenderName(sender), now, o).next
            && m.1 == Some(CheckinNext(s, SenderName(sender), now, o).reply))
      && (!isSelf && CommandOf(msg) == TransformCommand ==>
            m.0 == TransformNext(s, SenderName(sender), now, animals, o).next
            && m.1 == Some(TransformNext(s, SenderName(sender), now, animals, o).reply))
  {
  }

  /** The display name is used unless it is absent or empty. */
  lemma SenderNameChoice(c: Sender)
    ensures SenderName(c) == c.login <==> c.displayName.None? || c.displayName.value in {"", c.login}
    ensures c.displayName.Some? && c.displayName.value != "" ==> SenderName(c) == c.displayName.value
    ensures c.displayName.None? || c.displayName.value == "" ==> SenderName(c) == c.login
  {
  }

  /** Whitespace around a message never changes which command it is. */
  lemma CommandOfPadded(pre: string, msg: string, post: string)
    requires AllWhitespace(pre) && AllWhitespace(post)
    ensures CommandOf(pre + msg + post) == CommandOf(msg)
  {
    TrimPadding(pre, msg, post);
  }

  /** Letter case never changes which command a message is. */
  lemma CommandOfLower(msg: string)
    ensures CommandOf(ToLower(msg)) == CommandOf(msg)
  {
    TrimLower(msg);
    ToLowerIdempotent(Trim(msg));
  }
}
