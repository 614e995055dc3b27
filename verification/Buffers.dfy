/** Text built piece by piece in a buffer of fixed size. */
module Buffers {

  /** Appends `text` to the first `len` characters of the buffer. */
  method Strcat(buffer: array<char>, len: nat, text: string) returns (len': nat)
    requires len + |text| <= buffer.Length
    modifies buffer
    ensures len' == len + |text| && buffer[..len'] == old(buffer[..len]) + text
  {
    forall i | 0 <= i < |text| {
      buffer[len + i] := text[i];
    }
    len' := len + |text|;
  }
}
