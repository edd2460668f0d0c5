/** The stateful message manager of hub/message_manager.go and the message path of hub.go. */
module MessageManagers {
  import opened Common
  import opened Dedup
  import Lru

  class MessageManager {
    const existIdCache: Lru.LRU<string, ()>
    var table: map<string, Row>
    ghost var Repr: set<object>

    ghost predicate Valid()
      reads this, Repr, existIdCache, existIdCache.Repr
    {
      && this in Repr && existIdCache in Repr && existIdCache.Repr <= Repr && this !in existIdCache.Repr
      && existIdCache.Valid() && existIdCache.capacity == CAPACITY
    }

    ghost function State(): Store
      reads this, existIdCache
    {
      Store(existIdCache.Contents, table)
    }

    constructor ()
      ensures Valid() && fresh(Repr) && State() == EMPTY
    {
      existIdCache := new Lru.LRU(1000);
      table := map[];
      new;
      Repr := {this, existIdCache} + existIdCache.Repr;
    }

    method Exist(id: string, read: bool) returns (r: Result<bool>)
      requires Valid()
      modifies Repr
      ensures Valid() && fresh(Repr - old(Repr))
      ensures (State(), r) == ExistStep(old(State()), id, read)
    {
      var cached := existIdCache.Exist(id);
      if cached {
        return Ok(true);
      }
      if !read {
        return Err(DatabaseError);
      }
      if id in table {
        existIdCache.Put(id, ());
        Repr := Repr + existIdCache.Repr;
        return Ok(true);
      }
      return Err(RecordNotFound);
    }

    method Save(row: Row, write: bool) returns (r: Result<()>)
      requires Valid()
      modifies this`table
      ensures Valid() && (State(), r) == SaveStep(old(State()), row, write)
    {
      if !write {
        return Err(DatabaseError);
      }
      if row.id in table {
        return Err(KeyConflict);
      }
      table := table[row.id := row];
      return Ok(());
    }
  }

  class MessageHub {
    const messages: MessageManager
    var forwarded: seq<string>

    ghost predicate Valid()
      reads this, messages, messages.Repr, messages.existIdCache, messages.existIdCache.Repr
    {
      messages.Valid() && this !in messages.Repr
    }

    ghost function State(): Hub
      reads this, messages, messages.existIdCache
    {
      Hub(messages.State(), forwarded)
    }

    constructor ()
      ensures Valid() && fresh(messages.Repr) && State() == HandleAll([])
    {
      messages := new MessageManager();
      forwarded := [];
    }

    /** Saves a message that has an id, and hands it on whether or not the save succeeds. */
    method Dispatch(m: Msg, write: bool)
      requires Valid()
      modifies this, messages`table
      ensures Valid() && messages.Repr == old(messages.Repr)
      ensures var h := old(State());
              State() == Hub(if m.row.id != "" then SaveStep(h.store, m.row, write).0 else h.store,
                             if m.marshals then h.forwarded + [m.row.id] else h.forwarded)
    {
      if m.row.id != "" {
        var _ := messages.Save(m.row, write);
      }
      if !m.marshals {
        return;
      }
      forwarded := forwarded + [m.row.id];
    }

    /** One message from the filter, which looks the id up even for a message it drops, to the dispatch. */
    method Receive(m: Msg, env: Env)
      requires Valid()
      modifies this, messages.Repr
      ensures Valid() && fresh(messages.Repr - old(messages.Repr))
      ensures State() == Handle(old(State()), m, env)
    {
      var abort := m.notify || m.self;
      var exist := messages.Exist(m.row.id, env.read);
      if exist == Ok(true) {
        abort := true;
      }
      if !abort && m.handled {
        Dispatch(m, env.write);
      }
    }
  }
}
