/** The editor's scratch file: the text of every line ever entered, written once and found again
    by offset. One stream position serves reads and writes, so each call has to know whether the
    stream is where it needs to be. */
module Scratch {

  class ScratchFile {
    var data: string      // the file
    var pos: nat          // the stream's position
    var sfseek: nat       // where the editor believes the stream is
    var seekWrite: bool   // the stream may be away from the end: seek before writing

    constructor ()
      ensures Valid() && data == "" && fresh(this)
    {
      data, pos, sfseek, seekWrite := "", 0, 0, false;
    }

    ghost predicate Valid()
      reads this
    {
      sfseek == pos <= |data| && (!seekWrite ==> pos == |data|)
    }

    method GetText(seek: nat, len: nat) returns (s: string)
      requires Valid() && seek + len <= |data|
      modifies this
      ensures Valid() && data == old(data)
      ensures s == data[seek..seek + len]
    {
      seekWrite := true;
      if sfseek != seek {
        sfseek := seek;
        pos := sfseek;
      }
      s := data[pos..pos + len];
      pos := pos + len;
      sfseek := sfseek + len;
    }

    /** Writes text over whatever is at the stream's position, and returns the offset recorded
        for it: no earlier text is ever overwritten. */
    method PutText(text: string) returns (seek: nat)
      requires Valid()
      modifies this
      ensures Valid() && data == old(data) + text && seek == |old(data)|
    {
      if seekWrite {
        pos := |data|;
        sfseek := pos;
        seekWrite := false;
      }
      data := data[..pos] + text + (if pos + |text| <= |data| then data[pos + |text|..] else "");
      pos := pos + |text|;
      seek := sfseek;
      sfseek := sfseek + |text|;
    }
  }
}
