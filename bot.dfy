/** The bot as the running program holds it: one object owning the checkins
    table and the transformedUsers map, whose handlers update both in place.
    Each handler is proved to take exactly the step that module Engine
    specifies, so every property proved there holds of the object. */
module Bot {
  import opened Options
  import opened Text
  import opened TimePolicy
  import opened Store
  import opened Engine

  class ChatBot {
    var store: Table
    var transformed: map<string, int>

    function State(): BotState
      reads this
    {
      BotState(store, transformed)
    }

    /** Start-up: the table as found on disk, and an empty map. */
    constructor (rows: Table)
      ensures State() == BotState(rows, map[])
    {
      store := rows;
      transformed := map[];
    }

    /** handleCheckin. */
    method HandleCheckin(user: string, now: int, o: Oracle) returns (reply: string)
      modifies this`store
      ensures var r := CheckinNext(old(State()), user, now, o);
        State() == r.next && reply == Render(r.reply)
    {
      if o.readFails {
        reply := Render(CheckinError(user));
        return;
      }
      if user in store {
        var row := store[user];
        var timeDifference := now - row.lastCheckin;
        if timeDifference > MsPerDay {
          var newStreak := row.streak + 1;
          if o.writeFails {
            reply := Render(CheckinError(user));
          } else {
            store := store[user := row.(streak := newStreak, lastCheckin := now)];
            reply := Render(CheckedIn(user, newStreak));
          }
        } else {
          reply := Render(AlreadyCheckedIn(user));
        }
      } else if o.writeFails {
        reply := Render(CheckinError(user));
      } else {
        store := store[user := UserRecord(1, now, None, None, None)];
        reply := Render(FirstCheckin(user));
      }
    }

    /** The !tf branch of onMessageHandler. */
    method HandleTransform(user: string, now: int, animals: seq<string>, o: Oracle) returns (reply: string)
      requires |animals| > 0 && ValidOracle(o)
      modifies this
      ensures var r := TransformNext(old(State()), user, now, animals, o);
        State() == r.next && reply == Render(r.reply)
    {
      ghost var s0 := State();
      if user in transformed {
        var transformEnd := transformed[user];
        var animal := StoredAnimal(store, user, o.readFails);
        reply := Render(StillTransformed(user, animal, transformEnd, now));
      } else {
        var randomAnimal := animals[RandomAnimalIndex(o.animalDraw, |animals|)];
        var transformDuration := RandomTransformDuration(o.durationDraw);
        var transformEnd := now + transformDuration;
        assert randomAnimal == DrawnAnimal(animals, o) && transformEnd == DrawnEnd(now, o);
        if o.writeFails {
          reply := Render(TransformError(user));
        } else {
          if user in store {
            store := store[user := store[user].(animal := Some(randomAnimal),
                                                transformStart := Some(now),
                                                transformEnd := Some(transformEnd))];
          }
          transformed := transformed[user := transformEnd];
          reply := Render(Transformed(user, randomAnimal, transformEnd, now));
          assert State() == BotState(SetTransform(s0.store, user, randomAnimal, now, transformEnd), s0.transformed[user := transformEnd]);
        }
      }
    }

    /** One tick of the periodic sweep: every entry whose end has passed
        leaves the map, and its row is cleared unless that UPDATE fails
        (failing names the users whose UPDATE fails). */
    method SweepTick(now: int, failing: set<string>)
      modifies this
      ensures State() == SweepNext(old(State()), now, failing)
    {
      ghost var t0 := transformed;
      ghost var s0 := store;
      ghost var removed: set<string> := {};
      var pending := transformed.Keys;
      while pending != {}
        invariant pending <= t0.Keys
        invariant removed == Expired(t0, now) - pending
        invariant transformed == map u | u in t0 && u !in removed :: t0[u]
        invariant store == ClearTransforms(s0, removed - failing)
        decreases pending
      {
        var username :| username in pending;
        if now > transformed[username] {
          transformed := transformed - {username};
          removed := removed + {username};
          if username !in failing && username in store {
            store := store[username := ClearedRow(store[username])];
          }
        }
        pending := pending - {username};
      }
      assert transformed == map u | u in t0 && now <= t0[u] :: t0[u];
    }

    /** loadTransformedUsers: the query's rows are added to the map one by
        one; a failed query adds nothing. */
    method Bootstrap(now: int, queryFails: bool)
      modifies this`transformed
      ensures State() == BootstrapNext(old(State()), now, queryFails)
    {
      if queryFails {
        return;
      }
      var rows := RowsTransformedAfter(store, now);
      ghost var t0 := transformed;
      var pending := rows.Keys;
      while pending != {}
        invariant pending <= rows.Keys
        invariant transformed == t0 + map u | u in rows && u !in pending :: rows[u]
        decreases pending
      {
        var username :| username in pending;
        transformed := transformed[username := rows[username]];
        pending := pending - {username};
      }
      assert transformed == t0 + rows;
    }

    /** onMessageHandler: ignore the bot's own messages, then dispatch on
        the trimmed, lower-cased text; unknown commands get no reply. */
    method OnMessage(isSelf: bool, msg: string, sender: Sender, now: int, animals: seq<string>, o: Oracle)
      returns (reply: Option<string>)
      requires |animals| > 0 && ValidOracle(o)
      modifies this
      ensures var m := MessageNext(old(State()), isSelf, msg, sender, now, animals, o);
        State() == m.0 && reply == (if m.1.Some? then Some(Render(m.1.value)) else None)
    {
      if isSelf {
        reply := None;
        return;
      }
      var commandName := ToLower(Trim(msg));
      var username := SenderName(sender);
      if commandName == "!tf" {
        var response := HandleTransform(username, now, animals, o);
        reply := Some(response);
      } else if commandName == "!checkin" {
        var response := HandleCheckin(username, now, o);
        reply := Some(response);
      } else {
        reply := None;
      }
    }
  }
}
