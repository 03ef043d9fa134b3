/** Output streams over a memory buffer, and the sizing streams that only count. */
module OutputStream {
  import opened Bits
  import opened Outcomes
  import opened EncodeSpec

  /** The observable state of a stream and its buffer. */
  datatype View = View(sizing: bool, maxSize: nat, buf: seq<Byte>, state: nat, written: nat)

  predicate Sound(v: View) {
    v.sizing || (v.written <= v.maxSize && v.state + (v.maxSize - v.written) <= |v.buf|)
  }

  /**
   What an encoding call does: it succeeds exactly when there is an encoding and room for it, and
   then appends it. Whatever happens, the write position keeps its distance to the byte count, and
   nothing before the old position or at and after the new one is touched.
   */
  predicate Writes(a: View, b: View, o: Out, ok: bool) {
    && Sound(a) && Sound(b)
    && b.sizing == a.sizing && b.maxSize == a.maxSize && |b.buf| == |a.buf|
    && if a.sizing then
         && b.buf == a.buf && b.state == a.state
         && (ok <==> o.Some?)
         && (ok ==> b.written == a.written + |o.value|)
       else
         && a.state <= b.state && b.state - a.state == b.written - a.written
         && b.state <= |b.buf|
         && (ok <==> o.Some? && a.written + |o.value| <= a.maxSize)
         && (ok ==> b.written == a.written + |o.value| && b.buf[a.state..b.state] == o.value)
         && b.buf[..a.state] == a.buf[..a.state]
         && b.buf[b.state..] == a.buf[b.state..]
  }

  /** Two writes in a row are the write of the concatenation. */
  lemma WritesJoin(a: View, b: View, c: View, x: seq<Byte>, y: Out, ok: bool)
    requires Writes(a, b, Some(x), true) && Writes(b, c, y, ok)
    ensures Writes(a, c, Join(Some(x), y), ok)
  {
  }

  /** Once a call has failed, the longer encoding has failed too. */
  lemma WritesFailed(a: View, b: View, x: Out, y: Out)
    requires Writes(a, b, x, false)
    ensures Writes(a, b, Join(x, y), false)
  {
  }

  lemma WritesNothing(a: View)
    requires Sound(a)
    ensures Writes(a, a, Some([]), true)
  {
  }

  /**
   What a call counts on a sizing stream decides whether the same call on a buffer succeeds, and is
   the number of bytes that it then writes.
   */
  lemma SizingPredictsWriting(a: View, b: View, c: View, d: View, o: Out, sized: bool, ok: bool)
    requires a.sizing && Writes(a, b, o, sized)
    requires !c.sizing && Writes(c, d, o, ok)
    ensures ok <==> sized && c.written + (b.written - a.written) <= c.maxSize
    ensures ok ==> d.written - c.written == d.state - c.state == b.written - a.written
  {
  }

  class OStream {
    const sizing: bool
    const maxSize: nat
    const buf: array<Byte>
    var state: nat
    var bytesWritten: nat

    ghost function Now(): View
      reads this, buf
    {
      View(sizing, maxSize, buf[..], state, bytesWritten)
    }

    ghost predicate Valid()
      reads this, buf
    {
      Sound(Now())
    }

    /** A stream that writes to the buffer from the given position on. */
    constructor Over(buffer: array<Byte>, position: nat, size: nat)
      requires position + size <= buffer.Length
      ensures Now() == View(false, size, buffer[..], position, 0) && buf == buffer && Valid()
    {
      sizing, maxSize, buf, state, bytesWritten := false, size, buffer, position, 0;
    }

    constructor Sizing()
      ensures sizing && bytesWritten == 0 && Valid() && fresh(buf)
    {
      sizing, maxSize, state, bytesWritten := true, 0, 0, 0;
      buf := new Byte[0];
    }

    /** Writes bytes to the buffer, or counts them. */
    method Write(src: seq<Byte>) returns (ok: bool)
      requires Valid()
      modifies this, buf
      ensures Valid() && Writes(old(Now()), Now(), Some(src), ok)
    {
      if !sizing {
        if bytesWritten + |src| > maxSize {
          return false;
        }
        CopyIn(src);
      }
      bytesWritten := bytesWritten + |src|;
      return true;
    }

    /** Copies bytes to the write position and moves it past them. */
    method CopyIn(src: seq<Byte>)
      requires state + |src| <= buf.Length
      modifies this`state, buf
      ensures state == old(state) + |src|
      ensures buf[..] == old(buf[..state]) + src + old(buf[state + |src|..])
    {
      var dest := state;
      state := dest + |src|;
      for i := 0 to |src|
        invariant state == dest + |src|
        invariant forall k :: 0 <= k < buf.Length ==>
          buf[k] == if dest <= k < dest + i then src[k - dest] else old(buf[k])
      {
        buf[dest + i] := src[i];
      }
    }

    /** Counts bytes on a sizing stream without looking at them. */
    method CountOnly(count: nat, ghost content: seq<Byte>) returns (ok: bool)
      requires Valid() && sizing && |content| == count
      modifies this
      ensures Valid() && Writes(old(Now()), Now(), Some(content), ok) && ok
    {
      bytesWritten := bytesWritten + count;
      return true;
    }
  }
}
