/**
  Text read byte by byte up to a separator: the local buffer that `ReadField` and `ReadHeaderLine`
  share in form. Bytes wait in it until the separator, the end or a full buffer.
*/
module TextBuffers {
  import opened Bytes

  type Text = seq<Byte>

  predicate NoNul(s: Text) {
    forall i :: 0 <= i < |s| ==> s[i] != 0
  }

  /** A C string in a buffer. */
  function UpToNul(s: Text): (r: Text)
    ensures NoNul(s) ==> r == s
  {
    if s == [] then []
    else if s[0] == 0 then []
    else
      var t := UpToNul(s[1..]);
      assert NoNul(s) ==> forall i :: 0 <= i < |s[1..]| ==> s[1..][i] == s[i + 1] != 0;
      [s[0]] + t
  }

  lemma NoNulParts(s: Text, t: Text)
    ensures NoNul(s + t) <==> NoNul(s) && NoNul(t)
  {
    if NoNul(s + t) {
      assert forall i :: 0 <= i < |s| ==> s[i] == (s + t)[i];
      assert forall i :: 0 <= i < |t| ==> t[i] == (s + t)[|s| + i];
    }
  }

  class TextBuffer {
    const separator: Text
    const buf: array<Byte>
    var p: nat
    var matched: nat
    var text: Text
    /** The bytes moved from the buffer to the text. */
    var moved: nat
    ghost var seen: Text

    /** There is room for another byte, and no byte of a text without NUL is lost. */
    ghost predicate Valid()
      reads this, buf
    {
      && 0 < |separator| && |separator| + 2 < buf.Length
      && matched <= |separator| && matched <= p <= buf.Length - 2 - |separator| + matched
      && moved + p == |seen| && (NoNul(seen) ==> text + buf[..p] == seen)
    }

    constructor (separator: Text, size: nat)
      requires 0 < |separator| && |separator| + 2 < size
      ensures Valid() && fresh(buf) && this.separator == separator && seen == [] && matched == 0 && moved == 0
    {
      this.separator := separator;
      buf := new Byte[size];
      p, matched, text, moved, seen := 0, 0, [], 0, [];
    }

    /** One byte; the matcher starts over on a mismatch and does not back up. */
    method Take(b: Byte)
      requires Valid() && matched < |separator|
      modifies this, buf
      ensures Valid() && seen == old(seen) + [b]
      ensures matched == if b == separator[old(matched)] then old(matched) + 1 else 0
      ensures moved == old(moved) || (matched == 0 && moved == |seen|)
    {
      hide UpToNul, NoNul;
      ghost var was := buf[..p];
      buf[p] := b;
      p := p + 1;
      assert buf[..p] == was + [b] && text + (was + [b]) == text + was + [b];
      NoNulParts(seen, [b]);
      seen := seen + [b];
      if b == separator[matched] {
        matched := matched + 1;
      } else {
        matched := 0;
        if p > buf.Length - 2 - |separator| {
          NoNulParts(text, buf[..p]);
          text := text + UpToNul(buf[..p]);
          moved := moved + p;
          p := 0;
          assert text + buf[..0] == text;
        }
      }
    }

    /** All bytes taken so far. */
    function Length(): (n: nat)
      requires Valid()
      reads this, buf
      ensures n == |seen| && matched <= n && moved <= n
    {
      moved + p
    }

    /** The rest goes to the text, without the separator. */
    method Finish() returns (t: Text)
      requires Valid()
      ensures matched <= |seen|
      ensures NoNul(seen) ==> t == if matched == |separator| then seen[..|seen| - matched] else seen
    {
      hide UpToNul, NoNul;
      var m := if matched == |separator| then p - matched else p;
      assert buf[..p] == buf[..m] + buf[m..p];
      NoNulParts(text, buf[..p]);
      NoNulParts(buf[..m], buf[m..p]);
      t := text + UpToNul(buf[..m]);
    }
  }
}
