/** The property reader: bounded reads out of a section, each charged to a budget. */
module Reader {
  import opened Bytes
  import opened Header
  import opened Grammar

  /**
   * What a string read leaves behind: how far it moved, and what it read.
   * A string whose body does not fit has already consumed its two length bytes.
   */
  function StringMove(rest: seq<byte>, budget: u32): (r: (nat, Option<seq<byte>>))
    ensures r.0 <= budget && r.0 <= |rest|
  {
    if budget < 2 || |rest| < 2 then (0, None)
    else if budget - 2 < Read16(rest) || |rest| - 2 < Read16(rest) then (2, None)
    else (2 + Read16(rest), Some(rest[2..2 + Read16(rest)]))
  }

  class PropertyReader {
    const bytes: seq<byte>
    var at: nat
    var remaining: u32

    constructor (bytes: seq<byte>, propertyLength: u32)
      ensures this.bytes == bytes && at == 0 && remaining == propertyLength
    {
      this.bytes := bytes;
      at := 0;
      remaining := propertyLength;
    }

    predicate Valid()
      reads this
    {
      at <= |bytes|
    }

    /** The bytes not yet read, and what a walk over a whole section knows about the budget. */
    function Rest(): seq<byte>
      requires Valid()
      reads this
    {
      bytes[at..]
    }

    predicate Whole()
      reads this
    {
      Valid() && remaining == |bytes| - at
    }

    /** The reader moved on by `n` and charged the budget for it. */
    twostate predicate Moved(n: nat)
      reads this
    {
      at == old(at) + n && remaining == old(remaining) - n && at <= |bytes|
    }

    /** On a whole reader, one read is one value of the grammar: refused, or read and stepped over. */
    twostate predicate Reads(w: Width, used: bool, r: Option<Value>)
      reads this
    {
      old(Whole()) ==>
        match ParseValue(w, old(Rest()))
        case None => r.None?
        case Some(Parsed(v, n)) =>
          if used then r.None?
          else r == Some(v) && n <= |old(Rest())| && Whole() && Rest() == old(Rest())[n..]
    }

    /** Bounded by the slice as well as by the budget, which the caller has checked. */
    method Take(n: nat) returns (r: Option<seq<byte>>)
      requires Valid()
      modifies this
      ensures r == if |old(Rest())| < n then None else Some(old(Rest())[..n])
      ensures at == old(at) + (if r.Some? then n else 0) && remaining == old(remaining)
    {
      if |bytes| < at + n {
        return None;
      }
      r := Some(bytes[at..at + n]);
      assert bytes[at..][..n] == bytes[at..at + n];
      at := at + n;
    }

    /** `u8`, `u16` and `u32`: a fixed width, refused when the property repeats or the budget is short. */
    method Fixed(width: nat, used: bool) returns (r: Option<seq<byte>>)
      requires Valid()
      modifies this
      ensures r == if used || old(remaining) < width || |old(Rest())| < width then None else Some(old(Rest())[..width])
      ensures Moved(if r.Some? then width else 0)
    {
      if used || remaining < width {
        return None;
      }
      r := Take(width);
      if r.Some? {
        remaining := remaining - width;
      }
    }

    method U8(used: bool) returns (r: Option<byte>)
      requires Valid()
      modifies this
      ensures r == if used || old(remaining) < 1 || |old(Rest())| < 1 then None else Some(old(Rest())[0])
      ensures Moved(if r.Some? then 1 else 0)
      ensures Reads(Byte, used, if r.Some? then Some(Num(r.value)) else None)
    {
      var b := Fixed(1, used);
      return match b case Some(s) => Some(s[0]) case None => None;
    }

    method U16(used: bool) returns (r: Option<u16>)
      requires Valid()
      modifies this
      ensures r == if used || old(remaining) < 2 || |old(Rest())| < 2 then None else Some(Read16(old(Rest())))
      ensures Moved(if r.Some? then 2 else 0)
      ensures Reads(TwoBytes, used, if r.Some? then Some(Num(r.value)) else None)
    {
      var b := Fixed(2, used);
      return match b case Some(s) => Some(Read16(s)) case None => None;
    }

    method U32(used: bool) returns (r: Option<u32>)
      requires Valid()
      modifies this
      ensures r == if used || old(remaining) < 4 || |old(Rest())| < 4 then None else Some(Read32(old(Rest())))
      ensures Moved(if r.Some? then 4 else 0)
      ensures Reads(FourBytes, used, if r.Some? then Some(Num(r.value)) else None)
    {
      var b := Fixed(4, used);
      return match b case Some(s) => Some(Read32(s)) case None => None;
    }

    method PropertyId() returns (r: Option<byte>)
      requires Valid()
      modifies this
      ensures r == if old(remaining) < 1 || |old(Rest())| < 1 then None else Some(old(Rest())[0])
      ensures Moved(if r.Some? then 1 else 0)
    {
      r := U8(false);
    }

    method Utf8(used: bool) returns (r: Option<seq<byte>>)
      requires Valid()
      modifies this
      ensures r == if used then None else StringMove(old(Rest()), old(remaining)).1
      ensures Moved(if used then 0 else StringMove(old(Rest()), old(remaining)).0)
      ensures Reads(String, used, if r.Some? then Some(Text(r.value)) else None)
    {
      StringMoveIsParse(Rest(), remaining);
      if used || remaining < 2 {
        return None;
      }
      var header := Take(2);
      if header.None? {
        return None;
      }
      var length := Read16(header.value);
      remaining := remaining - 2;
      if remaining < length {
        return None;
      }
      assert Rest() == old(Rest())[2..];
      r := Take(length);
      if r.Some? {
        assert old(Rest())[2..][..length] == old(Rest())[2..2 + length];
        remaining := remaining - length;
      }
    }

    /** The one value of variable width, decoded inside both the section and the budget. It may repeat. */
    method VariableLength() returns (r: Option<u32>)
      requires Valid()
      modifies this
      ensures r == DecodeVar(old(Rest())[..Min(old(remaining), |old(Rest())|)])
      ensures Moved(if r.Some? then SizeVar(r.value) else 0)
      ensures Reads(Variable, false, if r.Some? then Some(Num(r.value)) else None)
    {
      if remaining < 1 {
        EmptyIsTruncated();
        assert Rest()[..0] == [];
        return None;
      }
      var bound := Min(remaining, |bytes| - at);
      var window := bytes[at..at + bound];
      assert Rest()[..bound] == window && (bound == |Rest()| ==> window == Rest());
      r := DecodeVariableLength(window);
      if r.Some? {
        DecodeVarExact(window, r.value);
        at := at + SizeVar(r.value);
        remaining := remaining - SizeVar(r.value);
      }
    }

    /** A key and then a value; a failure on the value leaves the key consumed. */
    method UserProperty() returns (r: Option<(seq<byte>, seq<byte>)>)
      requires Valid()
      modifies this
      ensures var (n, key) := StringMove(old(Rest()), old(remaining));
              var (m, value) := StringMove(old(Rest())[n..], old(remaining) - n);
              && r == (if key.None? || value.None? then None else Some((key.value, value.value)))
              && Moved(if key.None? then n else n + m)
      ensures Reads(Pair, false, if r.Some? then Some(Texts(r.value.0, r.value.1)) else None)
    {
      StringMoveIsParse(Rest(), remaining);
      var key := Utf8(false);
      if key.None? {
        return None;
      }
      assert Rest() == old(Rest())[StringMove(old(Rest()), old(remaining)).0..];
      StringMoveIsParse(Rest(), remaining);
      var value := Utf8(false);
      if value.None? {
        return None;
      }
      return Some((key.value, value.value));
    }
  }

  lemma EmptyIsTruncated()
    ensures DecodeVar([]).None?
  {
  }

  /** On a reader whose budget is the whole slice, the string read is the grammar's string. */
  lemma StringMoveIsParse(rest: seq<byte>, budget: u32)
    ensures budget == |rest| ==>
              var (n, t) := StringMove(rest, budget);
              ParseString(rest) == if t.None? then None else Some(Parsed(t.value, n))
  {
  }
}
