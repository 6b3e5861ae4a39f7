/**
 The output side of the print engine (lib/print.c): characters are collected in a buffer of 200, and
 each full buffer goes to a worker that appends it to a string.
 */
module PrintBuffer {
  import opened Word64

  const PRINT_STRING_LEN: nat := 200
  const CR: CHAR16 := 13
  const LF: CHAR16 := 10

  function Take(s: seq<CHAR16>, n: nat): (t: seq<CHAR16>)
    ensures |t| == if |s| < n then |s| else n
  {
    if |s| < n then s else s[..n]
  }

  /** POOL_PRINT: a string under construction. */
  class PoolPrint {
    var str: array?<CHAR16>
    var len: nat
    var maxlen: nat

    constructor (str: array?<CHAR16>, maxlen: nat)
      requires if str == null then maxlen == 0 else maxlen < str.Length
      ensures Fixed() && Text() == [] && this.str == str && this.maxlen == maxlen
    {
      this.str, this.len, this.maxlen := str, 0, maxlen;
    }

    ghost predicate Valid()
      reads this, str
    {
      len <= maxlen && (str == null ==> maxlen == 0) && (str != null ==> maxlen <= str.Length)
    }

    ghost function Text(): seq<CHAR16>
      requires Valid()
      reads this, str
    {
      if str == null then [] else str[..len]
    }

    /** The string buffer has a place for a NUL behind `maxlen` characters. */
    ghost predicate Fixed()
      reads this, str
    {
      Valid() && (str == null || maxlen < str.Length)
    }

    ghost predicate Terminated()
      reads this, str
    {
      maxlen > 0 ==> str != null && len < str.Length && str[len] == 0
    }

    /** _SPrint: appends what fits. */
    method SPrint(chunk: seq<CHAR16>)
      requires Fixed() || (Valid() && len + |chunk| < maxlen)
      modifies this`len, str
      ensures Valid() && Text() == Take(old(Text()) + chunk, maxlen) && Terminated()
    {
      var n := |chunk|;
      if len + n > maxlen {
        n := maxlen - len;
      }
      if str != null {
        forall i | 0 <= i < n {
          str[len + i] := chunk[i];
        }
      }
      len := len + n;
      if len < maxlen {
        str[len] := 0;
      } else if maxlen != 0 {
        str[maxlen] := 0;
      }
    }

    /** _PoolPrint: grows the string as needed; without memory the text so far is lost. */
    method PoolPrint(chunk: seq<CHAR16>, memory: bool)
      requires Valid()
      modifies this, str
      ensures Valid() && (str == old(str) || str == null || fresh(str))
      ensures memory || old(len) + |chunk| < old(maxlen) ==>
        Text() == old(Text()) + chunk && str != null && len < str.Length && str[len] == 0
      ensures !memory && old(len) + |chunk| >= old(maxlen) ==> str == null && Text() == []
    {
      var newlen := len + |chunk| + 1;
      if newlen > maxlen {
        newlen := newlen + PRINT_STRING_LEN;
        maxlen := newlen;
        if memory {
          var grown := new CHAR16[maxlen];
          forall i | 0 <= i < len {
            grown[i] := str[i];
          }
          str := grown;
        } else {
          str, len, maxlen := null, 0, 0;
        }
      }
      SPrint(chunk);
    }
  }

  /** Where the chunks go: to the workers of UnicodeSPrint and of PoolPrint, or to a console. With `memory`
      every allocation succeeds, without it any may fail. */
  datatype Worker = ToString(spc: PoolPrint) | ToPool(spc: PoolPrint, memory: bool) | ToConsole

  function Expand(s: seq<CHAR16>): seq<CHAR16> {
    if s == [] then [] else Expand(s[..|s| - 1]) + if s[|s| - 1] == LF then [CR, LF] else [s[|s| - 1]]
  }

  /** `n` characters under attribute `a`. */
  function Paint(a: nat, n: int): (s: seq<nat>)
    ensures |s| == if n < 0 then 0 else n
    ensures forall k | 0 <= k < |s| :: s[k] == a
  {
    seq(if n < 0 then 0 else n, _ => a)
  }

  /** PRINT_STATE, as far as the output goes. */
  class PrintState {
    const worker: Worker
    const buffer: array<CHAR16>
    var pos: nat
    var len: nat
    var attr: nat
    var restoreAttr: nat
    /** All chunks handed to the worker, in order, and what the string held before. */
    ghost var flushed: seq<CHAR16>
    /** The attribute that was set when each of their characters was handed over. */
    ghost var shown: seq<nat>
    ghost const initial: seq<CHAR16>
    /** The buffer of ToString, which the engine never replaces, and its capacity. */
    ghost const target: array?<CHAR16>
    ghost const limit: nat
    ghost var Repr: set<object>

    /** Everything printed so far. */
    ghost function Printed(): seq<CHAR16>
      reads this, buffer
    {
      flushed + buffer[..if pos <= buffer.Length then pos else 0]
    }

    /** The attributes of everything printed so far: what is still in the buffer will be shown under the
        attribute that is set. */
    ghost function Inks(): seq<nat>
      reads this
    {
      shown + Paint(attr, pos)
    }

    /** The string of the worker, if it has one, holds what it held before and then `f`. */
    ghost predicate Delivered(f: seq<CHAR16>)
      reads this, Repr
    {
      match worker
      case ToConsole => true
      case ToString(spc) =>
        spc in Repr && (spc.str != null ==> spc.str in Repr)
        && spc.Fixed() && spc.str != buffer && spc.Text() == Take(initial + f, limit)
        && spc.str == target && spc.maxlen == limit
      case ToPool(spc, memory) =>
        spc in Repr && (spc.str != null ==> spc.str in Repr)
        && spc.Valid() && spc.str != buffer && (memory ==> spc.Text() == initial + f)
    }

    /** There is room for one character more, or, with `full`, for its NUL only. */
    ghost predicate Good(full: bool)
      reads this, Repr
    {
      && {this, buffer} <= Repr && buffer.Length == PRINT_STRING_LEN
      && pos < (if full then PRINT_STRING_LEN else PRINT_STRING_LEN - 1)
      && len == |Printed()| && |shown| == |flushed| && 0 !in buffer[..pos] && Delivered(flushed)
    }

    ghost predicate Valid()
      reads this, Repr
    {
      Good(false)
    }

    /** The string of the worker ends in a NUL. */
    ghost predicate Closed()
      requires Valid()
      reads this, Repr
    {
      match worker
      case ToConsole => true
      case ToString(spc) => spc.Terminated()
      case ToPool(spc, memory) => memory ==> spc.str != null && spc.len < spc.str.Length && spc.str[spc.len] == 0
    }

    constructor (worker: Worker)
      requires !worker.ToConsole? ==> worker.spc.Valid()
      requires worker.ToString? ==> worker.spc.Fixed()
      ensures Valid() && Printed() == [] && Inks() == [] && this.worker == worker
      ensures fresh(Repr - (if worker.ToConsole? then {}
        else if worker.spc.str == null then {worker.spc} else {worker.spc, worker.spc.str}))
      ensures initial == if worker.ToConsole? then [] else worker.spc.Text()
      ensures worker.ToString? ==> target == worker.spc.str && limit == worker.spc.maxlen
    {
      this.worker := worker;
      buffer := new CHAR16[PRINT_STRING_LEN];
      pos, len, attr, restoreAttr, flushed, shown := 0, 0, 0, 0, [], [];
      initial := if worker.ToConsole? then [] else worker.spc.Text();
      target, limit := if worker.ToConsole? then null else worker.spc.str,
        if worker.ToConsole? then 0 else worker.spc.maxlen;
      new;
      Repr := {this, buffer}
            + if worker.ToConsole? then {}
              else if worker.spc.str == null then {worker.spc} else {worker.spc, worker.spc.str};
    }

    /** The call of the worker with a chunk. */
    method HandOver(chunk: seq<CHAR16>)
      requires {this, buffer} <= Repr && Delivered(flushed)
      modifies this`Repr, Repr - {this, buffer}
      ensures {this, buffer} <= Repr && fresh(Repr - old(Repr)) && Delivered(flushed + chunk)
      ensures worker.ToString? ==> worker.spc.Terminated()
      ensures worker.ToPool? && worker.memory ==>
        var spc := worker.spc; spc.str != null && spc.len < spc.str.Length && spc.str[spc.len] == 0
    {
      hide Take;
      match worker {
        case ToConsole =>
        case ToString(spc) =>
          TakeMore(initial, flushed, chunk, limit);
          spc.SPrint(chunk);
        case ToPool(spc, memory) =>
          var granted: bool :| memory ==> granted;
          spc.PoolPrint(chunk, granted);
          if spc.str != null {
            Repr := Repr + {spc.str};
          }
      }
    }

    /** PFLUSH. */
    method PFlush()
      requires Good(true)
      modifies Repr
      ensures Valid() && fresh(Repr - old(Repr))
      ensures Printed() == old(Printed()) == flushed && pos == 0
      ensures Inks() == old(Inks()) == shown
      ensures attr == old(attr) && restoreAttr == old(restoreAttr)
      ensures Closed()
    {
      buffer[pos] := 0;
      var chunk := buffer[..pos];
      HandOver(chunk);
      flushed, shown := flushed + chunk, shown + Paint(attr, |chunk|);
      pos := 0;
    }

    /** The end of _Print: what is left is flushed, and Len has counted every character put. */
    method Finish() returns (n: nat)
      requires Valid()
      modifies Repr
      ensures Valid() && fresh(Repr - old(Repr))
      ensures flushed == Printed() == old(Printed()) && n == |flushed| && Closed()
      ensures shown == Inks() == old(Inks()) && attr == old(attr)
    {
      PFlush();
      n := len;
    }

    /** PSETATTR: what is printed under one attribute is flushed before the next is set. */
    method PSetAttr(a: nat)
      requires Valid()
      modifies Repr
      ensures Valid() && fresh(Repr - old(Repr))
      ensures Printed() == old(Printed()) == flushed && attr == a && restoreAttr == old(attr)
      ensures Inks() == old(Inks())
    {
      PFlush();
      restoreAttr := attr;
      attr := a;
    }

    /** At the start of a directive there is no attribute to restore. */
    method ClearRestore()
      requires Valid()
      modifies Repr
      ensures Valid() && Repr == old(Repr) && Printed() == old(Printed()) && restoreAttr == 0
      ensures Inks() == old(Inks()) && attr == old(attr)
    {
      restoreAttr := 0;
    }

    /** %N, %H, %E: the attribute stays. */
    method SetAttrForGood(a: nat)
      requires Valid()
      modifies Repr
      ensures Valid() && fresh(Repr - old(Repr))
      ensures Printed() == old(Printed()) == flushed && attr == a && restoreAttr == 0
      ensures Inks() == old(Inks())
    {
      PSetAttr(a);
      restoreAttr := 0;
    }

    /** PPUTC: one character, with a carriage return in front of a newline. */
    method PPutc(c: CHAR16)
      requires Valid() && c != 0
      modifies Repr
      ensures Valid() && fresh(Repr - old(Repr))
      ensures Printed() == old(Printed()) + (if c == LF then [CR, LF] else [c])
      ensures Inks() == old(Inks()) + Paint(attr, if c == LF then 2 else 1)
      ensures attr == old(attr) && restoreAttr == old(restoreAttr)
      decreases c == LF
    {
      if c == LF {
        PPutc(CR);
      }
      PutRaw(c);
    }

    method PutRaw(c: CHAR16)
      requires Valid() && c != 0
      modifies Repr
      ensures Valid() && fresh(Repr - old(Repr))
      ensures Printed() == old(Printed()) + [c]
      ensures Inks() == old(Inks()) + Paint(attr, 1)
      ensures attr == old(attr) && restoreAttr == old(restoreAttr)
    {
      hide Take, Paint;
      ghost var before := buffer[..pos];
      PaintNext(shown, attr, pos);
      buffer[pos] := c;
      pos := pos + 1;
      len := len + 1;
      assert buffer[..pos] == before + [c];
      if pos >= PRINT_STRING_LEN - 1 {
        PFlush();
      }
    }
  }

  lemma PaintNext(s: seq<nat>, a: nat, n: nat)
    ensures s + Paint(a, n + 1) == s + Paint(a, n) + Paint(a, 1)
  {
  }

  lemma TakeMore(a: seq<CHAR16>, b: seq<CHAR16>, c: seq<CHAR16>, n: nat)
    ensures Take(Take(a + b, n) + c, n) == Take(a + (b + c), n)
  {
    assert a + (b + c) == (a + b) + c;
    if |a + b| < n {
    } else {
      assert ((a + b)[..n] + c)[..n] == (a + b)[..n];
      assert ((a + b) + c)[..n] == (a + b)[..n];
    }
  }
}
