/** Session keys: generation, staged commit, and choice of the decryption key by an 8-bit id. */
module Rekey {
  import opened Common
  import opened Words

  datatype Key = Key(raw: seq<u8>, id: u32)

  /** A cleared key slot. */
  const NO_KEY: Key := Key([0, 0, 0, 0, 0, 0, 0, 0, 0, 0, 0, 0, 0, 0, 0, 0,
                            0, 0, 0, 0, 0, 0, 0, 0, 0, 0, 0, 0, 0, 0, 0, 0], 0)

  /** The contents of a security context. */
  datatype Sec = Sec(active: Key, previous: Key, next: Key, pending: bool, sid: u32)

  /** vf_rekey_prepare_next with fresh key material. Ids are 32-bit and wrap. */
  function Prepared(s: Sec, raw: seq<u8>): Sec
  {
    s.(next := Key(raw, (s.active.id + 1) % 0x1_0000_0000), pending := true)
  }

  /** vf_rekey_commit. */
  function Committed(s: Sec): Sec
  {
    s.(previous := s.active, active := s.next, next := NO_KEY, pending := false)
  }

  /** The server's context after a rekey request for key k. */
  function Accepted(s: Sec, k: Key): Sec
  {
    if k.id <= s.active.id then s else Committed(s.(next := k))
  }

  /** vf_rekey_get_decrypt_key. */
  function DecryptKey(s: Sec, wireKid: u8): Option<seq<u8>>
  {
    if wireKid == s.active.id % 0x100 then Some(s.active.raw)
    else if s.previous.id != 0 && wireKid == s.previous.id % 0x100 then Some(s.previous.raw)
    else None
  }

  /** Of two consecutive generations the low byte of the id always tells which is meant. */
  lemma DecryptKeyGenerations(s: Sec, kid: u32, raw: seq<u8>)
    requires (kid == s.active.id && raw == s.active.raw)
          || (kid + 1 == s.active.id && kid >= 1 && s.previous == Key(raw, kid))
    ensures DecryptKey(s, kid % 0x100) == Some(raw)
  {
  }

  /** An acknowledgement: the key it goes out under, and the id it echoes. */
  datatype Answer = Answer(under: Key, id: u32)

  class SecCtx {
    var active: Key
    var previous: Key
    var next: Key
    var pending: bool
    var sid: u32

    function View(): Sec
      reads this
    {
      Sec(active, previous, next, pending, sid)
    }

    /** A zeroed context. */
    constructor ()
      ensures View() == Sec(NO_KEY, NO_KEY, NO_KEY, false, 0)
    {
      active, previous, next, pending, sid := NO_KEY, NO_KEY, NO_KEY, false, 0;
    }

    /** vf_rekey_init; random is what the random source delivers, if it does. */
    method Init(newSid: u32, random: Option<seq<u8>>)
      modifies this
      ensures View() == Sec(if random.Some? then Key(random.value, 1) else NO_KEY, NO_KEY, NO_KEY, false, newSid)
    {
      active, previous, next := NO_KEY, NO_KEY, NO_KEY;
      sid := newSid;
      if random.Some? {
        active := Key(random.value, 1);
      }
      pending := false;
    }

    /** vf_rekey_prepare_next: a failing random source leaves the slot cleared and the flag as it was. */
    method PrepareNext(random: Option<seq<u8>>) returns (ok: bool)
      modifies this
      ensures ok == random.Some?
      ensures View() == if ok then Prepared(old(View()), random.value) else old(View()).(next := NO_KEY)
    {
      next := NO_KEY;
      if random.None? { return false; }
      next := Key(random.value, (active.id + 1) % 0x1_0000_0000);
      pending := true;
      return true;
    }

    method Commit()
      modifies this
      ensures View() == Committed(old(View()))
    {
      previous := active;
      active := next;
      next := NO_KEY;
      pending := false;
    }

    /**
     * vfast_handle_rekey_req on a decrypted request: a stale id is ignored; otherwise the key is staged,
     * the acknowledgement goes out under the key active so far, and the staged key is committed.
     */
    method HandleRequest(id: u32, raw: seq<u8>) returns (ack: Option<Answer>)
      modifies this
      ensures View() == Accepted(old(View()), Key(raw, id))
      ensures ack == if id <= old(active.id) then None else Some(Answer(old(active), id))
    {
      if id <= active.id { return None; }
      next := Key(raw, id);
      ack := Some(Answer(active, id));
      Commit();
    }

    method CopyFrom(other: SecCtx)
      modifies this
      ensures View() == old(other.View())
    {
      active, previous, next, pending, sid := other.active, other.previous, other.next, other.pending, other.sid;
    }
  }

  /** The client's two context buffers, the pointer to the active one and the state machine's copy of it. */
  class Client {
    const ctx0: SecCtx
    const ctx1: SecCtx
    var active: SecCtx
    var fsmSec: SecCtx

    ghost predicate Valid()
      reads this
    {
      ctx0 != ctx1 && (active == ctx0 || active == ctx1) && fsmSec == active
    }

    /** vfast_init_secctx. */
    constructor (random: Option<seq<u8>>)
      ensures Valid() && fresh(ctx0) && fresh(ctx1)
      ensures active.View() == Sec(if random.Some? then Key(random.value, 1) else NO_KEY, NO_KEY, NO_KEY, false, 0)
    {
      var a := new SecCtx();
      var b := new SecCtx();
      a.Init(0, random);
      ctx0, ctx1, active, fsmSec := a, b, a, a;
    }

    /** Key install of client_handle_auth: previous and next keep what they held. */
    method InstallAuth(raw: seq<u8>, id: u32, sid: u32)
      requires Valid()
      modifies active, this`fsmSec
      ensures Valid() && active == old(active)
      ensures active.View() == old(active.View()).(active := Key(raw, id), sid := sid, pending := false)
    {
      active.active := Key(raw, id);
      active.sid := sid;
      active.pending := false;
      fsmSec := active;
    }

    /**
     * vfast_handle_new_key: commit in the standby buffer, then swap. Readers of either buffer see a
     * consistent context: the old buffer keeps its keys and only loses its pending flag.
     */
    method HandleNewKey()
      requires Valid()
      modifies this`active, this`fsmSec, ctx0, ctx1
      ensures Valid() && active != old(active)
      ensures active.View() == Committed(old(active.View()))
      ensures old(active).View() == old(active.View()).(pending := false)
    {
      var curr := active;
      var standby := if curr == ctx0 then ctx1 else ctx0;
      standby.CopyFrom(curr);
      standby.Commit();
      active := standby;
      curr.pending := false;
      fsmSec := standby;
    }
  }

  const REKEY_TIMEOUT := 300
  const REKEY_BYTES := 0x4000_0000

  /** The client's rekey timer. */
  class Timer {
    var lastSent: int
    var retryInterval: int

    /** Intervals double from 2 up to 32 seconds. */
    ghost predicate Valid()
      reads this
    {
      retryInterval in {2, 4, 8, 16, 32}
    }

    constructor ()
      ensures Valid()
    {
      lastSent, retryInterval := 0, 2;
    }

    /**
     * vfast_rekey_timer_handler while connected: starts a rekey when the key is used up and none is
     * pending, repeats an unanswered request after the retry interval. The request carries the staged
     * key and goes out under the active one; without a free task nothing is sent.
     */
    method Tick(ctx: SecCtx, now: int, createdAt: int, processed: nat, random: Option<seq<u8>>, task: bool)
      returns (sent: Option<Key>)
      requires Valid()
      modifies this, ctx
      ensures Valid()
      ensures var was := old(ctx.View());
              var init := !was.pending && (now - createdAt >= REKEY_TIMEOUT || processed >= REKEY_BYTES);
              var retry := was.pending && now - old(lastSent) >= old(retryInterval);
              ctx.View() == (if !init then was
                             else if random.Some? then Prepared(was, random.value)
                             else was.(next := NO_KEY)) &&
              sent == (if task && (retry || (init && random.Some?)) then Some(ctx.next) else None) &&
              lastSent == (if sent.Some? then now else old(lastSent)) &&
              retryInterval == (if init && random.Some? then 2
                                else if retry && task && old(retryInterval) < 32 then 2 * old(retryInterval)
                                else old(retryInterval))
    {
      var pending := ctx.pending;
      var init := !pending && (now - createdAt >= REKEY_TIMEOUT || processed >= REKEY_BYTES);
      var retry := pending && now - lastSent >= retryInterval;
      sent := None;
      if init || retry {
        if init {
          var ok := ctx.PrepareNext(random);
          if !ok { return; }
          retryInterval := 2;
        }
        if task {
          sent := Some(ctx.next);
          lastSent := now;
          if retry && retryInterval < 32 {
            retryInterval := retryInterval * 2;
          }
        }
      }
    }
  }
}
