/** The shell's writing out of a command tree, recursively onto one buffer; the words of it, that is,
    without the spaces between them and without a limit to their length. */
module Printer {
  import opened Basics
  import opened Grammar
  import opened RoundTrip
  import Parser

  class CommandLine {
    var cmd: seq<Word>

    constructor ()
      ensures cmd == []
    {
      cmd := [];
    }

    method Pads(w: Word)
      modifies this
      ensures cmd == old(cmd) + [w]
    {
      cmd := cmd + [w];
    }

    method PadWords(av: seq<Word>)
      modifies this
      ensures cmd == old(cmd) + av
    {
      var argp := 0;
      while argp < |av|
        invariant 0 <= argp <= |av| && cmd == old(cmd) + av[..argp]
      {
        Pads(av[argp]);
        argp := argp + 1;
      }
      assert av[..argp] == av;
    }

    method PadRedirections(lef: Option<Word>, rit: Option<Word>, flg: Flags)
      modifies this
      ensures cmd == old(cmd) + Redirections(lef, rit, flg)
    {
      if lef.Some? {
        Pads(if flg.read then "<<" else "<");
        Pads(lef.value);
      }
      if rit.Some? {
        Pads(if flg.append then ">>" else ">");
        if flg.stderr {
          Pads("&");
        }
        Pads(rit.value);
      }
    }

    method Padd(t: Tree)
      modifies this
      ensures cmd == old(cmd) + Words(t)
      decreases t, 1
    {
      hide Redirections;
      match t {
        case Nil => return;
        case Paren(spr, lef, rit, flg) => PadParen(t, spr, lef, rit, flg);
        case Command(av, lef, rit, flg) =>
          PadWords(av);
          PadRedirections(lef, rit, flg);
        case Or(car, cdr) => PadBoth(t, car, "||", cdr);
        case And(car, cdr) => PadBoth(t, car, "&&", cdr);
        case Pipe(car, cdr, _) => PadBoth(t, car, "|", cdr);
        case List(car, cdr) => PadBoth(t, car, ";", cdr);
      }
    }

    method PadParen(ghost t: Tree, spr: Tree, lef: Option<Word>, rit: Option<Word>, flg: Flags)
      requires spr < t
      modifies this
      ensures cmd == old(cmd) + (["("] + Words(spr) + [")"] + Redirections(lef, rit, flg))
      decreases t, 0
    {
      hide Words, Redirections;
      Pads("(");
      Padd(spr);
      Pads(")");
      PadRedirections(lef, rit, flg);
    }

    method PadBoth(ghost t: Tree, car: Tree, sep: Word, cdr: Tree)
      requires car < t && cdr < t
      modifies this
      ensures cmd == old(cmd) + (Words(car) + [sep] + Words(cdr))
      decreases t, 0
    {
      hide Words;
      Padd(car);
      Pads(sep);
      Padd(cdr);
    }
  }

  /** A normal tree written out and read back is the same tree, without its empty commands, unless it
      has one of these right inside parentheses; then, there is an error. */
  method ReadBack(t: Tree) returns (r: Parsed)
    requires Normal(t, TOP)
    ensures Gives(r, t)
  {
    var line := new CommandLine();
    line.Padd(t);
    assert line.cmd == Words(t);
    assert Parser.Range(line.cmd, 0, |line.cmd|) == Words(t);
    Back(t, false, TOP);
    r := Parser.Syntax(line.cmd, 0, |line.cmd|, TOP);
  }
}
