/** The diagnostic session and its S3 watchdog (uds_session.c). */
module SessionControl {
  import opened Kernel
  import S = SecurityAccess

  datatype SessionRam = SessionRam(session: Session, s3: Timer)

  const BOOT := SessionRam(Default, Stopped)

  function Refresh(r: SessionRam, now: nat): SessionRam {
    r.(s3 := if r.session != Default then Armed(now + S3_TIMEOUT_MS) else Stopped)
  }

  function Set(r: SessionRam, now: nat, session: Session): SessionRam {
    Refresh(r.(session := session), now)
  }

  /** The S3 timer fires: a non-default session falls back to the default one. */
  function Expire(r: SessionRam): SessionRam {
    SessionRam(Default, Stopped)
  }

  class SessionManager {
    var current: Session
    var s3: Timer

    function State(): SessionRam reads this { SessionRam(current, s3) }

    constructor ()
      ensures State() == BOOT
    {
      current, s3 := Default, Stopped;
    }

    method RefreshTimer(now: nat)
      modifies this
      ensures State() == Refresh(old(State()), now)
    {
      if current != Default {
        s3 := Armed(now + S3_TIMEOUT_MS);
      } else {
        s3 := Stopped;
      }
    }

    method SetSession(session: Session, now: nat)
      modifies this
      ensures State() == Set(old(State()), now, session)
    {
      current := session;
      RefreshTimer(now);
    }

    method S3TimerExpiry(security: S.SecurityServer, board: Board)
      requires security.Valid()
      modifies this, security, board`log
      ensures security.Valid() && State() == Expire(old(State()))
      ensures old(current) != Default ==>
                && security.State() == S.ResetLock(old(security.State()))
                && board.log == old(board.log) + [S3Expired]
      ensures old(current) == Default ==> security.State() == old(security.State()) && board.log == old(board.log)
    {
      s3 := Stopped;
      if current != Default {
        current := Default;
        security.ResetLockStatus();
        board.Emit(S3Expired);
      }
    }
  }
}
