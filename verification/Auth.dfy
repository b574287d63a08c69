/** CMD 0x03 and the write permission of src/app_auth.c. */
module Auth {
  import opened Bytes
  import opened Wire
  import opened Fips180
  import opened Hmac

  const SN: seq<byte> := [0x31, 0x32, 0x33, 0x34, 0x35, 0x36]                // "123456"
  const DEFAULT_PASSWORD: seq<byte> := [0x31, 0x32, 0x33, 0x34, 0x35, 0x36]  // "123456"
  const SALT: seq<byte> :=                                                   // "RL_RANGE_AUTH_V1"
    [0x52, 0x4C, 0x5F, 0x52, 0x41, 0x4E, 0x47, 0x45, 0x5F, 0x41, 0x55, 0x54, 0x48, 0x5F, 0x56, 0x31]
  const WINDOW_MS: nat := 300_000

  type Nonce = s: seq<byte> | |s| == 8 witness Zeros(8)
  type Digest = s: seq<byte> | |s| == 32 witness Zeros(32)

  function DefaultHash(): Digest
  {
    Sha256(DEFAULT_PASSWORD + SN + SALT)
  }

  /** The token that answers `nonce` under the password hash `hash`. */
  function Token(hash: Digest, nonce: Nonce): Digest
  {
    HmacSha256(hash, nonce + SN)
  }

  // ---- The transition functions ----

  datatype State = State(
    hash: Digest,
    bleNonce: Nonce, bleNonceValid: bool,
    nfcNonce: Nonce, nfcNonceValid: bool,
    bleUnlocked: bool,
    nfcUntil: nat  // 0 when locked
  ) {
    function NonceOf(ch: Channel): Nonce { if ch.BLE? then bleNonce else nfcNonce }

    predicate NonceValid(ch: Channel) { if ch.BLE? then bleNonceValid else nfcNonceValid }

    function Issue(ch: Channel, nonce: Nonce): State
    {
      if ch.BLE? then this.(bleNonce := nonce, bleNonceValid := true)
      else this.(nfcNonce := nonce, nfcNonceValid := true)
    }

    function Consume(ch: Channel): State
    {
      if ch.BLE? then this.(bleNonceValid := false) else this.(nfcNonceValid := false)
    }

    function Lock(ch: Channel): State
    {
      if ch.BLE? then this.(bleUnlocked := false, bleNonceValid := false)
      else this.(nfcUntil := 0, nfcNonceValid := false)
    }

    function Unlock(ch: Channel, now: nat): State
    {
      if ch.BLE? then this.(bleUnlocked := true) else this.(nfcUntil := now + WINDOW_MS)
    }
  }

  /** The zero-initialised statics. The password hash is set by app_auth_init, later. */
  function Initial(): State
  {
    State(Zeros(32), Zeros(8), false, Zeros(8), false, false, 0)
  }

  /** app_auth_check_write: an NFC deadline found to have passed is cleared. */
  function CheckWrite(s: State, ch: Channel, now: nat): (State, byte)
  {
    match ch
    case BLE => (s, if s.bleUnlocked then OK else AUTH_REQUIRED)
    case NFC =>
      if s.nfcUntil == 0 then (s, AUTH_REQUIRED)
      else if now <= s.nfcUntil then (s, OK)
      else (s.(nfcUntil := 0), AUTH_EXPIRED)
  }

  function Disconnect(s: State): State
  {
    s.(bleUnlocked := false, bleNonceValid := false)
  }

  /** app_auth_init and app_auth_reset_password. */
  function ResetPassword(s: State): State
  {
    s.(hash := DefaultHash())
  }

  /** Token evaluation: the nonce is spent whatever the outcome. */
  function EvaluateToken(s: State, ch: Channel, token: Digest, now: nat): (State, seq<byte>)
  {
    if token == Token(s.hash, s.NonceOf(ch)) then
      (s.Consume(ch).Unlock(ch, now), [CMD_AUTH, OK, SUBCMD_TOKEN, UNLOCKED])
    else
      (s.Consume(ch).Lock(ch), [CMD_AUTH, AUTH_FAILED, SUBCMD_TOKEN, LOCKED])
  }

  function ChangePassword(s: State, ch: Channel, data: seq<byte>, now: nat): (State, seq<byte>)
  {
    var (s', st) := CheckWrite(s, ch, now);
    if st != OK then (s', [CMD_AUTH, st, SUBCMD_CHANGE_PWD])
    else if |data| < 34 then (s', [CMD_AUTH, PARAM_LEN, SUBCMD_CHANGE_PWD])
    else (s'.(hash := data[2..34]), [CMD_AUTH, OK, SUBCMD_CHANGE_PWD])
  }

  /** app_auth_handle_cmd: the new state and the reply, empty when the payload is not CMD 0x03. */
  function HandleCmd(s: State, ch: Channel, data: seq<byte>, now: nat, random: Nonce): (State, seq<byte>)
  {
    if |data| < 2 || data[0] != CMD_AUTH then (s, [])
    else if data[1] == SUBCMD_NONCE then
      (s.Issue(ch, random), [CMD_AUTH, OK, SUBCMD_NONCE] + random)
    else if data[1] == SUBCMD_TOKEN then
      if |data| < 34 then (s, [CMD_AUTH, PARAM_LEN, SUBCMD_TOKEN])
      else if !s.NonceValid(ch) then (s, [CMD_AUTH, AUTH_STATE, SUBCMD_TOKEN, LOCKED])
      else EvaluateToken(s, ch, data[2..34], now)
    else if data[1] == SUBCMD_CHANGE_PWD then ChangePassword(s, ch, data, now)
    else if data[1] == SUBCMD_LOCK then (s.Lock(ch), [CMD_AUTH, OK, SUBCMD_LOCK])
    else (s, [CMD_AUTH, UNSUPPORTED, data[1]])
  }

  /** No reply is longer than that to a nonce request. */
  lemma ReplyLength(s: State, ch: Channel, data: seq<byte>, now: nat, random: Nonce)
    ensures |HandleCmd(s, ch, data, now, random).1| <= 11
  {
    hide Token;
  }

  // ---- The module state and its functions ----

  /** Puts a short reply at the front of the response buffer. */
  method Reply(resp: array<byte>, bytes: seq<byte>) returns (n: nat)
    requires |bytes| <= resp.Length
    modifies resp
    ensures n == |bytes| && resp[..n] == bytes
  {
    Copy(resp, 0, bytes);
    n := |bytes|;
  }

  class Module {
    var passwordHash: Digest
    var nonceBle: Nonce
    var nonceBleValid: bool
    var nonceNfc: Nonce
    var nonceNfcValid: bool
    var bleUnlocked: bool
    var nfcAuthUntilMs: nat

    function View(): State
      reads this
    {
      State(passwordHash, nonceBle, nonceBleValid, nonceNfc, nonceNfcValid, bleUnlocked, nfcAuthUntilMs)
    }

    constructor ()
      ensures View() == Initial()
    {
      passwordHash := Zeros(32);
      nonceBle, nonceBleValid := Zeros(8), false;
      nonceNfc, nonceNfcValid := Zeros(8), false;
      bleUnlocked, nfcAuthUntilMs := false, 0;
    }

    method AppAuthInit()
      modifies this
      ensures View() == ResetPassword(old(View()))
    {
      hide Sha256;
      var h := ComputePasswordHash(DEFAULT_PASSWORD, SN, SALT);
      passwordHash := h;
    }

    method AppAuthResetPassword()
      modifies this
      ensures View() == ResetPassword(old(View()))
    {
      hide Sha256;
      var h := ComputePasswordHash(DEFAULT_PASSWORD, SN, SALT);
      passwordHash := h;
    }

    method ChannelLock(ch: Channel)
      modifies this
      ensures View() == old(View()).Lock(ch)
    {
      if ch.BLE? {
        bleUnlocked := false;
        nonceBleValid := false;
      } else {
        nfcAuthUntilMs := 0;
        nonceNfcValid := false;
      }
    }

    method ChannelUnlock(ch: Channel, now: nat)
      modifies this
      ensures View() == old(View()).Unlock(ch, now)
    {
      if ch.BLE? {
        bleUnlocked := true;
      } else {
        nfcAuthUntilMs := now + WINDOW_MS;
      }
    }

    method AppAuthCheckWrite(ch: Channel, now: nat) returns (st: byte)
      modifies this
      ensures (View(), st) == CheckWrite(old(View()), ch, now)
    {
      if ch.BLE? {
        return if bleUnlocked then OK else AUTH_REQUIRED;
      }
      if nfcAuthUntilMs > 0 {
        if now <= nfcAuthUntilMs {
          return OK;
        }
        nfcAuthUntilMs := 0;
        return AUTH_EXPIRED;
      }
      return AUTH_REQUIRED;
    }

    method AppAuthBleDisconnect()
      modifies this
      ensures View() == Disconnect(old(View()))
    {
      bleUnlocked := false;
      nonceBleValid := false;
    }

    /** Compares a submitted token with the expected one, spends the nonce and unlocks or locks the channel. */
    method CompareToken(ch: Channel, received: Digest, now: nat) returns (matched: bool)
      modifies this
      ensures View() == EvaluateToken(old(View()), ch, received, now).0
      ensures matched <==> received == Token(old(passwordHash), old(View()).NonceOf(ch))
    {
      hide HmacSha256;
      var nonce := if ch.BLE? then nonceBle else nonceNfc;
      var expected := ComputeHmac(passwordHash, nonce + SN);
      matched := ConstantTimeEqual(expected, received);
      if ch.BLE? {
        nonceBleValid := false;
      } else {
        nonceNfcValid := false;
      }
      if matched {
        ChannelUnlock(ch, now);
      } else {
        ChannelLock(ch);
      }
    }

    method AppAuthHandleCmd(ch: Channel, data: seq<byte>, resp: array<byte>, now: nat, random: Nonce)
      returns (n: nat)
      requires |HandleCmd(View(), ch, data, now, random).1| <= resp.Length
      modifies this, resp
      ensures n <= 11 && n <= resp.Length
      ensures (View(), resp[..n]) == HandleCmd(old(View()), ch, data, now, random)
    {
      hide HmacSha256, Sha256;
      if |data| < 2 || data[0] != CMD_AUTH {
        return 0;
      }
      var subcmd := data[1];
      if subcmd == SUBCMD_NONCE {
        if ch.BLE? {
          nonceBle, nonceBleValid := random, true;
        } else {
          nonceNfc, nonceNfcValid := random, true;
        }
        n := Reply(resp, [CMD_AUTH, OK, SUBCMD_NONCE] + random);
      } else if subcmd == SUBCMD_TOKEN {
        if |data| < 34 {
          n := Reply(resp, [CMD_AUTH, PARAM_LEN, SUBCMD_TOKEN]);
          return;
        }
        var nonceValid := if ch.BLE? then nonceBleValid else nonceNfcValid;
        if !nonceValid {
          n := Reply(resp, [CMD_AUTH, AUTH_STATE, SUBCMD_TOKEN, LOCKED]);
          return;
        }
        var matched := CompareToken(ch, data[2..34], now);
        if matched {
          n := Reply(resp, [CMD_AUTH, OK, SUBCMD_TOKEN, UNLOCKED]);
        } else {
          n := Reply(resp, [CMD_AUTH, AUTH_FAILED, SUBCMD_TOKEN, LOCKED]);
        }
      } else if subcmd == SUBCMD_CHANGE_PWD {
        var st := AppAuthCheckWrite(ch, now);
        if st != OK {
          n := Reply(resp, [CMD_AUTH, st, SUBCMD_CHANGE_PWD]);
          return;
        }
        if |data| < 34 {
          n := Reply(resp, [CMD_AUTH, PARAM_LEN, SUBCMD_CHANGE_PWD]);
          return;
        }
        passwordHash := data[2..34];
        n := Reply(resp, [CMD_AUTH, OK, SUBCMD_CHANGE_PWD]);
      } else if subcmd == SUBCMD_LOCK {
        ChannelLock(ch);
        n := Reply(resp, [CMD_AUTH, OK, SUBCMD_LOCK]);
      } else {
        n := Reply(resp, [CMD_AUTH, UNSUPPORTED, subcmd]);
      }
    }
  }
}
