/** Character input with one step back, as the config lexer and the line reader use it. */
module InputStreams {

  /** An input stream: it stays good until a read fails at the end. */
  class InputStream {
    const data: string
    var pos: nat
    var good: bool

    constructor (data: string)
      ensures Valid() && Unread() == data && good
    {
      this.data, pos, good := data, 0, true;
    }

    ghost predicate Valid() reads this { pos <= |data| }

    function Unread(): string
      requires Valid()
      reads this
    {
      if good then data[pos..] else ""
    }

    method Get() returns (c: char)
      requires Valid() && good
      modifies this
      ensures Valid()
      ensures good <==> old(Unread()) != ""
      ensures good ==> c == old(Unread())[0] && Unread() == old(Unread())[1..] && pos == old(pos) + 1
    {
      if pos < |data| {
        c := data[pos];
        pos := pos + 1;
      } else {
        c := '\0';
        good := false;
      }
    }

    method Unget()
      requires Valid() && good && pos > 0
      modifies this
      ensures Valid() && good
      ensures Unread() == [data[old(pos) - 1]] + old(Unread())
    {
      pos := pos - 1;
    }
  }
}
