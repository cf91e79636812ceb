/** The release of epoch usage counts done by `drop_usage_count`: walk the
    send buffer in order, look up each message's epoch and decrement its
    usage counter, stopping at the first lookup failure or negative counter.
    The epoch table maps each epoch the lookup can find to its counter; an
    epoch absent from the table is a lookup failure, answered with
    GNUTLS_E_INVALID_REQUEST. */
module EpochUsage {
  import opened DtlsTypes

  datatype Release = Release(ret: int, usage: map<nat, int>)

  /** The walk of `drop_usage_count` over `buf`, from counters `usage`. */
  function Drop(buf: seq<BufferedMessage>, usage: map<nat, int>): (r: Release)
    ensures r.usage.Keys == usage.Keys
    ensures r.ret == 0 || r.ret == GNUTLS_E_INVALID_REQUEST || r.ret == GNUTLS_E_INTERNAL_ERROR
    decreases |buf|
  {
    if buf == [] then Release(0, usage)
    else
      var e := buf[0].epoch;
      if e !in usage then Release(GNUTLS_E_INVALID_REQUEST, usage)
      else
        var usage' := usage[e := usage[e] - 1];
        if usage'[e] < 0 then Release(GNUTLS_E_INTERNAL_ERROR, usage')
        else Drop(buf[1..], usage')
  }

  /** Number of messages of `buf` that reference epoch `e`. */
  function Count(buf: seq<BufferedMessage>, e: nat): nat
    decreases |buf|
  {
    if buf == [] then 0
    else (if buf[0].epoch == e then 1 else 0) + Count(buf[1..], e)
  }

  /** Every counter decreased by the number of messages of `buf` that
      reference its epoch. */
  function Decremented(usage: map<nat, int>, buf: seq<BufferedMessage>): map<nat, int>
  {
    map e | e in usage :: usage[e] - Count(buf, e)
  }

  /** Every epoch that `buf` references is known and has at least as many
      uses left as `buf` has messages on it. */
  ghost predicate Sufficient(buf: seq<BufferedMessage>, usage: map<nat, int>)
  {
    forall e :: Count(buf, e) > 0 ==> e in usage && Count(buf, e) <= usage[e]
  }

  lemma {:induction false} CountAppend(a: seq<BufferedMessage>, b: seq<BufferedMessage>, e: nat)
    ensures Count(a + b, e) == Count(a, e) + Count(b, e)
    decreases |a|
  {
    if a == [] {
      assert a + b == b;
    } else {
      assert (a + b)[1..] == a[1..] + b;
      CountAppend(a[1..], b, e);
    }
  }

  lemma CountSnoc(buf: seq<BufferedMessage>, i: nat, e: nat)
    requires i < |buf|
    ensures Count(buf[..i + 1], e) == Count(buf[..i], e) + (if buf[i].epoch == e then 1 else 0)
  {
    assert buf[..i + 1] == buf[..i] + [buf[i]];
    CountAppend(buf[..i], [buf[i]], e);
    assert [buf[i]][1..] == [];
  }

  /** The walk succeeds exactly when every referenced epoch is known and
      can absorb all its decrements; it then lowers each counter by exactly
      the number of buffered messages that reference that epoch. */
  lemma {:induction false} DropSucceeds(buf: seq<BufferedMessage>, usage: map<nat, int>)
    ensures Drop(buf, usage).ret == 0 <==> Sufficient(buf, usage)
    ensures Drop(buf, usage).ret == 0 ==> Drop(buf, usage).usage == Decremented(usage, buf)
    decreases |buf|
  {
    if buf == [] {
      assert Decremented(usage, buf) == usage;
    } else {
      var e := buf[0].epoch;
      CountCons(buf, e);
      if e !in usage {
        assert Count(buf, e) > 0;
      } else if usage[e] - 1 < 0 {
        assert Count(buf, e) > usage[e];
      } else {
        DropSucceeds(buf[1..], usage[e := usage[e] - 1]);
        SufficientCons(buf, usage);
        DecrementedCons(buf, usage);
      }
    }
  }

  lemma CountCons(buf: seq<BufferedMessage>, x: nat)
    requires buf != []
    ensures Count(buf, x) == (if x == buf[0].epoch then 1 else 0) + Count(buf[1..], x)
  {
  }

  /** Taking the first message's use off its counter leaves the rest of the
      buffer sufficient exactly when the whole buffer was. */
  lemma SufficientCons(buf: seq<BufferedMessage>, usage: map<nat, int>)
    requires buf != [] && buf[0].epoch in usage && usage[buf[0].epoch] >= 1
    ensures var e := buf[0].epoch;
      Sufficient(buf[1..], usage[e := usage[e] - 1]) <==> Sufficient(buf, usage)
  {
    var e := buf[0].epoch;
    var rest := buf[1..];
    var usage' := usage[e := usage[e] - 1];
    if Sufficient(rest, usage') {
      forall x | Count(buf, x) > 0 ensures x in usage && Count(buf, x) <= usage[x] {
        CountCons(buf, x);
        if x != e {
          assert Count(rest, x) > 0;
        } else if Count(rest, x) > 0 {
          assert Count(rest, x) <= usage'[x];
        }
      }
    }
    if Sufficient(buf, usage) {
      forall x | Count(rest, x) > 0 ensures x in usage' && Count(rest, x) <= usage'[x] {
        CountCons(buf, x);
        assert Count(buf, x) > 0;
      }
    }
  }

  /** Decrementing the first message's counter and then the rest of the
      buffer is decrementing the whole buffer. */
  lemma DecrementedCons(buf: seq<BufferedMessage>, usage: map<nat, int>)
    requires buf != [] && buf[0].epoch in usage
    ensures var e := buf[0].epoch;
      Decremented(usage[e := usage[e] - 1], buf[1..]) == Decremented(usage, buf)
  {
    forall x | x in usage ensures Decremented(usage[buf[0].epoch := usage[buf[0].epoch] - 1], buf[1..])[x] == usage[x] - Count(buf, x) {
      CountCons(buf, x);
    }
  }

  lemma SufficientPrefix(buf: seq<BufferedMessage>, usage: map<nat, int>, i: nat)
    requires i < |buf| && Sufficient(buf[..i + 1], usage)
    ensures Sufficient(buf[..i], usage)
  {
    forall x | Count(buf[..i], x) > 0 ensures x in usage && Count(buf[..i], x) <= usage[x] {
      CountSnoc(buf, i, x);
    }
  }

  /** One more message lowers its own epoch's counter by one more. */
  lemma DecrementedSnoc(usage: map<nat, int>, buf: seq<BufferedMessage>, i: nat)
    requires i < |buf| && buf[i].epoch in usage
    ensures var d := Decremented(usage, buf[..i]);
      Decremented(usage, buf[..i + 1]) == d[buf[i].epoch := d[buf[i].epoch] - 1]
  {
    var d := Decremented(usage, buf[..i]);
    var e := buf[i].epoch;
    forall x | x in usage ensures d[e := d[e] - 1][x] == usage[x] - Count(buf[..i + 1], x) {
      CountSnoc(buf, i, x);
    }
  }

  lemma {:induction false} DropPrefix(buf: seq<BufferedMessage>, usage: map<nat, int>, i: nat)
    requires i <= |buf| && Sufficient(buf[..i], usage)
    ensures Drop(buf, usage) == Drop(buf[i..], Decremented(usage, buf[..i]))
    decreases i
  {
    if i == 0 {
      assert buf[..0] == [];
      assert Decremented(usage, []) == usage;
    } else {
      var j := i - 1;
      SufficientPrefix(buf, usage, j);
      DropPrefix(buf, usage, j);
      CountSnoc(buf, j, buf[j].epoch);
      assert buf[j..][0] == buf[j] && buf[j..][1..] == buf[i..];
      DecrementedSnoc(usage, buf, j);
    }
  }

  /** At the first prefix that is not sufficient, the new message's epoch,
      when known, has more uses than its counter holds. */
  lemma FirstShortfall(buf: seq<BufferedMessage>, usage: map<nat, int>, i: nat)
    requires i < |buf| && buf[i].epoch in usage
    requires Sufficient(buf[..i], usage) && !Sufficient(buf[..i + 1], usage)
    ensures Count(buf[..i + 1], buf[i].epoch) > usage[buf[i].epoch]
  {
    var x :| Count(buf[..i + 1], x) > 0 && !(x in usage && Count(buf[..i + 1], x) <= usage[x]);
    CountSnoc(buf, i, x);
  }

  /** When the walk first fails at message i, the decrements of the earlier
      messages stay applied and later messages are left untouched: an
      unknown epoch returns the lookup error with message i not decremented;
      a counter driven below zero returns GNUTLS_E_INTERNAL_ERROR with that
      decrement applied. */
  lemma DropFailsAt(buf: seq<BufferedMessage>, usage: map<nat, int>, i: nat)
    requires i < |buf|
    requires Sufficient(buf[..i], usage) && !Sufficient(buf[..i + 1], usage)
    ensures buf[i].epoch !in usage ==>
      Drop(buf, usage) == Release(GNUTLS_E_INVALID_REQUEST, Decremented(usage, buf[..i]))
    ensures buf[i].epoch in usage ==>
      Drop(buf, usage) == Release(GNUTLS_E_INTERNAL_ERROR, Decremented(usage, buf[..i + 1]))
  {
    DropPrefix(buf, usage, i);
    var d := Decremented(usage, buf[..i]);
    var e := buf[i].epoch;
    var tail := buf[i..];
    assert tail != [] && tail[0] == buf[i];
    if e in usage {
      FirstShortfall(buf, usage, i);
      CountSnoc(buf, i, e);
      DecrementedSnoc(usage, buf, i);
      assert d[e] - 1 < 0;
    }
  }
}
