/**
  `WebHandler.emit`: log records are forwarded to web clients as
  `log_event`s, except records whose message mentions `socket.io`, which
  would otherwise feed the transport's own logging back into itself.
  The UTC timestamp string is a parameter.
*/
module LogForwarding {
  import opened Wrappers

  const SelfMarker: string := "socket.io"

  datatype LogRecord = LogRecord(levelname: string, msg: string)

  /** The `log_data` dictionary sent to clients. */
  datatype LogEvent = LogEvent(level: string, timestamp: string, msg: string)

  /** `p` occurs in `s` starting at position `i`. */
  ghost predicate OccursAt(p: string, s: string, i: int)
  {
    0 <= i && i + |p| <= |s| && s[i..i + |p|] == p
  }

  /** `p` occurs in `s` at some position. */
  ghost predicate Occurs(p: string, s: string)
  {
    exists i :: OccursAt(p, s, i)
  }

  /** Python's `p in s` on strings, by scanning start positions. */
  function Contains(s: string, p: string): (b: bool)
    ensures b <==> Occurs(p, s)
  {
    if |p| > |s| then false
    else if s[..|p|] == p then assert OccursAt(p, s, 0); true
    else
      var rest := Contains(s[1..], p);
      OccursInTail(p, s);
      rest
  }

  /** When `p` is not a prefix of `s`, it occurs in `s` exactly when it occurs in `s[1..]`. */
  lemma OccursInTail(p: string, s: string)
    requires |p| <= |s| && s[..|p|] != p
    ensures Occurs(p, s) <==> Occurs(p, s[1..])
  {
    if Occurs(p, s[1..]) {
      var i :| OccursAt(p, s[1..], i);
      assert s[i + 1..i + 1 + |p|] == s[1..][i..i + |p|];
      assert OccursAt(p, s, i + 1);
    }
    if Occurs(p, s) {
      var i :| OccursAt(p, s, i);
      assert i > 0;
      assert s[1..][i - 1..i - 1 + |p|] == s[i..i + |p|];
      assert OccursAt(p, s[1..], i - 1);
    }
  }

  /** `WebHandler.emit`: `None` when the record is suppressed, else the event sent. */
  function Forward(rec: LogRecord, utcNow: string): (ev: Option<LogEvent>)
    ensures ev.None? <==> Occurs(SelfMarker, rec.msg)
    ensures ev.Some? ==>
      ev.value.level == rec.levelname && ev.value.msg == rec.msg && ev.value.timestamp == utcNow
  {
    if !Contains(rec.msg, SelfMarker) then Some(LogEvent(rec.levelname, utcNow, rec.msg)) else None
  }

  /** A message about the transport itself is never forwarded, whatever surrounds the marker. */
  lemma TransportMessagesSuppressed(before: string, after: string, level: string, utcNow: string)
    ensures Forward(LogRecord(level, before + SelfMarker + after), utcNow) == None
  {
    var m := before + SelfMarker + after;
    assert m[|before|..|before| + |SelfMarker|] == SelfMarker;
    assert OccursAt(SelfMarker, m, |before|);
  }
}
