/**
 * The pure decisions of the log handlers: endpoint addresses, the rewrite a record gets
 * before it is queued, the proxy stamp, and the listener's routing rule (`_handle`).
 */
module LogRecords {
  import opened Wrappers

  /**
   * The attributes of a `logging.LogRecord` that the transport reads or rewrites; the
   * record travels as the dictionary of these attributes. `message` is absent until the
   * record is formatted, and `proxyId` is the `proxy2pynng_id` attribute.
   */
  datatype Record = Record(
    levelno: int,
    msg: string,
    args: Option<seq<string>>,
    message: Option<string>,
    excInfo: Option<string>,
    excText: Option<string>,
    stackInfo: Option<string>,
    proxyId: Option<string>)

  /**
   * `PynngLoggingHandler.prepare`: a copy whose `msg` and `message` are the formatted text
   * and whose arguments and exception and stack information are cleared. `format` is the
   * handler's formatter.
   */
  function Prepare(format: Record -> string, rec: Record): (r: Record)
    ensures r.msg == format(rec) && r.message == Some(format(rec))
    ensures r.args.None? && r.excInfo.None? && r.excText.None? && r.stackInfo.None?
    ensures r.levelno == rec.levelno && r.proxyId == rec.proxyId
  {
    var text := format(rec);
    rec.(msg := text, message := Some(text), args := None, excInfo := None, excText := None, stackInfo := None)
  }

  /** `Logging2PynngProxyHandler.handle` sets `proxy2pynng_id` before passing the record on. */
  function Stamp(rec: Record, proxyId: string): (r: Record)
    ensures r.proxyId == Some(proxyId) && r.levelno == rec.levelno
  {
    rec.(proxyId := Some(proxyId))
  }

  /** A destination handler registered for a proxy id: its name and its level. */
  datatype Dest = Dest(name: string, level: int)

  /** What `_handle` did with one record: the handlers it called, and whether it caught an error. */
  datatype Dispatched = Dispatched(invoked: seq<Dest>, raised: bool)

  /** The handlers in `hs` whose level lets a record of level `levelno` through, in list order. */
  function Selected(hs: seq<Dest>, levelno: int): (r: seq<Dest>)
    ensures |r| <= |hs|
    ensures forall d :: d in r <==> d in hs && d.level <= levelno
  {
    if hs == [] then []
    else if hs[0].level <= levelno then [hs[0]] + Selected(hs[1..], levelno)
    else Selected(hs[1..], levelno)
  }

  /** Selecting from two lists one after the other is selecting from their concatenation. */
  lemma {:induction false} SelectedAppend(a: seq<Dest>, b: seq<Dest>, levelno: int)
    ensures Selected(a + b, levelno) == Selected(a, levelno) + Selected(b, levelno)
  {
    if a != [] {
      assert (a + b)[1..] == a[1..] + b;
      SelectedAppend(a[1..], b, levelno);
    } else {
      assert a + b == b;
    }
  }

  /**
   * The `for` loop of `_handle` over a handler list: each handler whose level passes is
   * called in turn; one that raises (`fails`) ends the loop, and the error is caught.
   */
  function Walk(hs: seq<Dest>, levelno: int, fails: Dest -> bool): (d: Dispatched)
    ensures |d.invoked| <= |hs|
  {
    if hs == [] then Dispatched([], false)
    else if hs[0].level <= levelno then
      if fails(hs[0]) then Dispatched([hs[0]], true)
      else
        var rest := Walk(hs[1..], levelno, fails);
        Dispatched([hs[0]] + rest.invoked, rest.raised)
    else Walk(hs[1..], levelno, fails)
  }

  /**
   * `PynngLoggingListener._handle`: a record without a proxy id raises RuntimeError, and one
   * whose id has no entry makes the loop iterate None (TypeError); both are caught and no
   * handler is called. Otherwise the id's handler list is walked.
   */
  function Dispatch(rec: Record, table: map<string, seq<Dest>>, fails: Dest -> bool): (d: Dispatched)
    ensures rec.proxyId.None? ==> d == Dispatched([], true)
    ensures rec.proxyId.Some? && rec.proxyId.value !in table ==> d == Dispatched([], true)
  {
    if rec.proxyId.None? || rec.proxyId.value !in table then Dispatched([], true)
    else Walk(table[rec.proxyId.value], rec.levelno, fails)
  }

  /**
   * The walk calls a prefix of the selected handlers, none of which raised except possibly
   * the last, and when it caught an error the last one called is the one that raised.
   */
  lemma {:induction false} WalkCallsSelectedPrefix(hs: seq<Dest>, levelno: int, fails: Dest -> bool)
    ensures Walk(hs, levelno, fails).invoked <= Selected(hs, levelno)
    ensures var d := Walk(hs, levelno, fails);
            d.raised ==> |d.invoked| > 0 && fails(d.invoked[|d.invoked| - 1])
    ensures var d := Walk(hs, levelno, fails);
            forall i :: 0 <= i < |d.invoked| - 1 ==> !fails(d.invoked[i])
  {
    if hs != [] {
      WalkCallsSelectedPrefix(hs[1..], levelno, fails);
      if hs[0].level <= levelno && !fails(hs[0]) {
        var rest := Walk(hs[1..], levelno, fails).invoked;
        var d := [hs[0]] + rest;
        assert Walk(hs, levelno, fails).invoked == d;
        assert forall i :: 1 <= i < |d| ==> d[i] == rest[i - 1];
      }
    }
  }

  /**
   * The walk catches an error exactly when some selected handler raises; when none does,
   * it calls every selected handler.
   */
  lemma {:induction false} WalkRaisesIffSelectedFails(hs: seq<Dest>, levelno: int, fails: Dest -> bool)
    ensures var d := Walk(hs, levelno, fails);
            && (d.raised <==> exists x :: x in Selected(hs, levelno) && fails(x))
            && (!d.raised ==> d.invoked == Selected(hs, levelno))
  {
    if hs != [] {
      WalkRaisesIffSelectedFails(hs[1..], levelno, fails);
      if hs[0].level <= levelno && !fails(hs[0]) {
        var sel := Selected(hs[1..], levelno);
        assert (exists x :: x in [hs[0]] + sel && fails(x)) ==> exists x :: x in sel && fails(x);
      }
    }
  }

  /** With no failing handler, `_handle` calls exactly the handlers whose level passes, in list order. */
  lemma DispatchCallsSelected(rec: Record, table: map<string, seq<Dest>>, fails: Dest -> bool)
    requires rec.proxyId.Some? && rec.proxyId.value in table
    requires forall d :: d in table[rec.proxyId.value] ==> !fails(d)
    ensures Dispatch(rec, table, fails) == Dispatched(Selected(table[rec.proxyId.value], rec.levelno), false)
  {
    WalkRaisesIffSelectedFails(table[rec.proxyId.value], rec.levelno, fails);
  }

  /**
   * `prepare` keeps the level and the proxy id, so a record routes the same way after it
   * has been prepared and sent.
   */
  lemma PrepareKeepsRoute(format: Record -> string, rec: Record, table: map<string, seq<Dest>>, fails: Dest -> bool)
    ensures Dispatch(Prepare(format, rec), table, fails) == Dispatch(rec, table, fails)
  {
  }

  /** A stamped record is routed to the stamping proxy's handlers, or to none if it has no entry. */
  lemma StampRoutes(rec: Record, proxyId: string, table: map<string, seq<Dest>>, fails: Dest -> bool)
    ensures proxyId in table ==> Dispatch(Stamp(rec, proxyId), table, fails) == Walk(table[proxyId], rec.levelno, fails)
    ensures proxyId !in table ==> Dispatch(Stamp(rec, proxyId), table, fails) == Dispatched([], true)
  {
  }

  /** `_TCP_ADDR_FMT`'s fixed prefix. */
  const TCP_PREFIX: string := "tcp://"

  /** The decimal digit for `d`. */
  function DigitChar(d: nat): (c: char)
    requires d < 10
    ensures '0' <= c <= '9'
  {
    "0123456789"[d]
  }

  /** `str(n)` for a natural number: its decimal digits, most significant first. */
  function Decimal(n: nat): (s: string)
    ensures |s| >= 1
    ensures forall i :: 0 <= i < |s| ==> '0' <= s[i] <= '9'
    ensures n < 10 <==> |s| == 1
  {
    if n < 10 then [DigitChar(n)] else Decimal(n / 10) + [DigitChar(n % 10)]
  }

  /** Different numbers print differently. */
  lemma {:induction false} DecimalInjective(a: nat, b: nat)
    requires Decimal(a) == Decimal(b)
    ensures a == b
  {
    var s := Decimal(a);
    if a >= 10 && b >= 10 {
      assert Decimal(a / 10) == s[..|s| - 1] == Decimal(b / 10);
      DecimalInjective(a / 10, b / 10);
      assert DigitChar(a % 10) == s[|s| - 1] == DigitChar(b % 10);
    }
  }

  /** `_TCP_ADDR_FMT.format(host, port)`: the key endpoints are registered under. */
  function Address(host: string, port: nat): (a: string)
    ensures |a| > |TCP_PREFIX| + |host|
    ensures a[..|TCP_PREFIX|] == TCP_PREFIX
  {
    TCP_PREFIX + host + ":" + Decimal(port)
  }

  /** Counting from the end of `pre + ":" + digits`, the ':' is exactly after the digits. */
  lemma ColonFromEnd(pre: string, digits: string, j: nat)
    requires j <= |digits|
    requires forall i :: 0 <= i < |digits| ==> '0' <= digits[i] <= '9'
    ensures ((pre + ":" + digits)[|pre| + |digits| - j] == ':') <==> j == |digits|
  {
    var s := pre + ":" + digits;
    if j < |digits| {
      assert s[|pre| + |digits| - j] == digits[|digits| - j - 1];
    }
  }

  /**
   * The port's digits hold no ':', so the last ':' of an address separates host and port:
   * two addresses are equal exactly when host and port are.
   */
  lemma AddressInjective(h1: string, p1: nat, h2: string, p2: nat)
    ensures Address(h1, p1) == Address(h2, p2) <==> h1 == h2 && p1 == p2
  {
    if Address(h1, p1) == Address(h2, p2) {
      var a := Address(h1, p1);
      var d1, d2 := Decimal(p1), Decimal(p2);
      var k := if |d1| < |d2| then |d1| else |d2|;
      ColonFromEnd(TCP_PREFIX + h1, d1, k);
      ColonFromEnd(TCP_PREFIX + h2, d2, k);
      assert |d1| == |d2|;
      assert d1 == a[|a| - |d1|..] == d2;
      DecimalInjective(p1, p2);
      assert TCP_PREFIX + h1 == a[..|a| - |d1| - 1] == TCP_PREFIX + h2;
      assert h1 == (TCP_PREFIX + h1)[|TCP_PREFIX|..] == (TCP_PREFIX + h2)[|TCP_PREFIX|..] == h2;
    }
  }
}
