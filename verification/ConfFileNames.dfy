/** The list of configuration files: names separated by spaces. */
module ConfFileNames {
  import opened Optional
  import opened Splitting

  method SkipLeadingSpaces(list: string, pos: nat) returns (pos': nat)
    requires pos <= |list|
    ensures pos <= pos' <= |list| && Only(' ', list[pos..pos'])
    ensures pos' < |list| ==> list[pos'] != ' '
  {
    pos' := pos;
    while pos' < |list| && list[pos'] == ' '
      invariant pos <= pos' <= |list| && forall i :: pos <= i < pos' ==> list[i] == ' '
    {
      pos' := pos' + 1;
    }
  }

  /** The next file name and the place after it, or nothing at the end of the list. */
  method GetNextFile(list: string, pos: nat) returns (pos': nat, name: Option<string>)
    requires pos <= |list|
    ensures pos <= pos' <= |list| && (name.Some? ==> pos < pos' && name.value != [])
    ensures Words(' ', list[pos..])
         == if name.None? then [] else [name.value] + Words(' ', list[pos'..])
  {
    var start := SkipLeadingSpaces(list, pos);
    ghost var gap := list[pos..start];
    if start == |list| {
      assert list[pos..] == gap;
      NoWords(' ', gap);
      return start, None;
    }
    pos' := start;
    while pos' < |list| && list[pos'] != ' '
      invariant start <= pos' <= |list| && forall i :: start <= i < pos' ==> list[i] != ' '
    {
      pos' := pos' + 1;
    }
    name := Some(list[start..pos']);
    assert list[pos..] == gap + list[start..pos'] + list[pos'..];
    PeelWord(' ', gap, list[start..pos'], list[pos'..]);
  }
}
