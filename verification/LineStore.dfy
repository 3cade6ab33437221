/** The line store on Linux: lines written to a file and read back through a growing buffer. */
module LineStore {
  import opened Basics

  /** A line without newlines and terminators, as a C string can hold it. */
  predicate Line(s: string)
  {
    '\n' !in s && '\0' !in s
  }

  predicate Lines(ls: seq<string>)
  {
    forall i :: 0 <= i < |ls| ==> Line(ls[i])
  }

  /** What the file holds after writing these lines. */
  function Written(ls: seq<string>): string
  {
    if ls == [] then "" else ls[0] + "\n" + Written(ls[1..])
  }

  /** The length of the line that starts at the beginning of `s`. */
  function LineLength(s: string): (n: nat)
    ensures n <= |s|
    ensures n < |s| ==> s[n] == '\n'
    ensures forall k :: 0 <= k < n ==> s[k] != '\n'
  {
    if s == [] || s[0] == '\n' then 0 else 1 + LineLength(s[1..])
  }

  /** What is left in the file after one line has been read. */
  function Rest(s: string): (r: string)
    ensures |r| < |s| || s == [] == r
  {
    var n := LineLength(s);
    if n < |s| then s[n + 1..] else []
  }

  /** The smallest buffer size that doubling from 1024 reaches for a line of `n` characters
      and its terminator. */
  function Capacity(n: nat, size: nat := 1024): (c: nat)
    requires size >= 1024
    ensures c >= size && n + 1 < c
    decreases n + 2 - size
  {
    if n + 1 < size then size else Capacity(n, 2 * size)
  }

  /** What a reader finds: every line up to the first empty one, which looks like the end. */
  function ReadBack(ls: seq<string>): seq<string>
  {
    if ls == [] || ls[0] == "" then [] else [ls[0]] + ReadBack(ls[1..])
  }

  /** The lines that repeated reading returns before it first returns null. */
  function AllLines(s: string): seq<string>
    decreases |s|
  {
    var n := LineLength(s);
    if n == 0 then [] else [s[..n]] + AllLines(Rest(s))
  }

  lemma FirstLine(l: string, rest: string)
    requires Line(l)
    ensures LineLength(l + "\n" + rest) == |l|
    ensures Rest(l + "\n" + rest) == rest
  {
    var s := l + "\n" + rest;
    assert s[|l|] == '\n';
    forall k | 0 <= k < |l| ensures s[k] != '\n' {
      assert s[k] == l[k] && l[k] in l;
    }
  }

  /** Round trip: reading back what was written gives the lines in order, up to the first
      empty one. */
  lemma {:induction false} WrittenLinesComeBack(ls: seq<string>)
    requires Lines(ls)
    ensures AllLines(Written(ls)) == ReadBack(ls)
    decreases |ls|
  {
    if ls != [] {
      FirstLine(ls[0], Written(ls[1..]));
      WrittenLinesComeBack(ls[1..]);
      assert Written(ls)[..|ls[0]|] == ls[0];
    }
  }

  lemma {:induction false} ReadBackIsPrefix(ls: seq<string>)
    ensures ReadBack(ls) <= ls
    ensures ReadBack(ls) == ls <==> forall i :: 0 <= i < |ls| ==> ls[i] != ""
    decreases |ls|
  {
    if ls != [] {
      ReadBackIsPrefix(ls[1..]);
      assert ls == [ls[0]] + ls[1..];
    }
  }

  /** So the list comes back whole exactly when no line is empty. */
  lemma LinesComeBackIffNoneEmpty(ls: seq<string>)
    requires Lines(ls)
    ensures AllLines(Written(ls)) == ls <==> forall i :: 0 <= i < |ls| ==> ls[i] != ""
  {
    WrittenLinesComeBack(ls);
    ReadBackIsPrefix(ls);
  }

  lemma NextOfSlice(s: string, pos: nat)
    requires pos < |s|
    ensures s[pos..] != "" && s[pos..][0] == s[pos] && s[pos..][1..] == s[pos + 1..]
    ensures s[..pos + 1] == s[..pos] + [s[pos]]
  {
  }

  /** What the next character of a line means. */
  lemma NextOfLine(s: string, pos: nat, n: nat)
    requires n == LineLength(s) && pos <= n
    ensures pos < |s| ==> (s[pos] != '\n' <==> pos < n)
    ensures pos == n ==> Rest(s) == if pos < |s| then s[pos + 1..] else []
  {
  }

  class Store {
    var content: string
    var cursor: nat
    /** The largest block the allocator can deliver. */
    const memory: nat

    constructor (memory: nat)
      ensures content == "" && cursor == 0 && this.memory == memory
    {
      content, cursor := "", 0;
      this.memory := memory;
    }

    ghost predicate Valid()
      reads this
    {
      cursor <= |content|
    }

    ghost function Unread(): string
      reads this
      requires Valid()
    {
      content[cursor..]
    }

    method BeginRead()
      modifies this`cursor
      ensures Valid() && cursor == 0 && Unread() == content
    {
      cursor := 0;
    }

    method BeginWrite()
      modifies this`content, this`cursor
      ensures Valid() && content == ""
    {
      content, cursor := "", 0;
    }

    method WriteLine(line: string)
      requires Valid()
      modifies this`content
      ensures Valid() && content == old(content) + line + "\n"
    {
      content := content + line + "\n";
    }

    /** `fgetc`: the next character, or nothing at the end of the file. */
    method Getc() returns (c: Option<char>)
      requires Valid()
      modifies this`cursor
      ensures Valid()
      ensures c == if old(Unread()) == "" then None else Some(old(Unread())[0])
      ensures Unread() == if old(Unread()) == "" then "" else old(Unread())[1..]
    {
      if cursor == |content| {
        return None;
      }
      c := Some(content[cursor]);
      cursor := cursor + 1;
    }

    /** Doubles the buffer, keeping what it holds; fails when memory runs out. */
    method Grow(buffer: array<char>, size: nat, ghost used: nat) returns (copy: array?<char>)
      requires buffer.Length == size > 0 && used <= size
      ensures copy != null <==> 2 * size <= memory
      ensures copy != null ==> fresh(copy) && copy.Length == 2 * size && copy[..used] == buffer[..used]
    {
      if 2 * size > memory {
        return null;
      }
      copy := new char[2 * size](_ => '\0');
      for i := 0 to size
        invariant copy[..i] == buffer[..i]
      {
        copy[i] := buffer[i];
      }
    }

    static method Put(buffer: array<char>, pos: nat, c: char)
      requires pos < buffer.Length
      modifies buffer
      ensures buffer[..pos + 1] == old(buffer[..pos]) + [c]
    {
      buffer[pos] := c;
    }

    /** One line without its newline; nothing for an empty line, at the end of the file, or
        when memory runs out.  The array accesses are the proof that the buffer is always
        large enough, for the terminator too. */
    method ReadLine() returns (line: Option<string>)
      requires Valid()
      modifies this`cursor
      ensures Valid()
      ensures var n := LineLength(old(Unread()));
              && (Capacity(n) <= memory ==> Unread() == Rest(old(Unread())))
              && (line == if Capacity(n) <= memory && n > 0 then Some(old(Unread())[..n]) else None)
    {
      ghost var s := Unread();
      ghost var n := LineLength(s);
      if 1024 > memory {
        return None;
      }
      var pos, size := 0, 1024;
      var buffer := new char[1024](_ => '\0');
      var more := true;
      while more
        invariant Valid() && fresh(buffer) && buffer.Length == size && 1024 <= size <= memory
        invariant pos <= n && pos + 1 < size && buffer[..pos] == s[..pos]
        invariant Capacity(n) == Capacity(n, size)
        invariant if more then Unread() == s[pos..] else pos == n && Unread() == Rest(s)
        decreases n - pos, more
      {
        if pos < |s| {
          NextOfSlice(s, pos);
        }
        NextOfLine(s, pos, n);
        var c := Getc();
        if c.Some? && c.value != '\n' {
          Put(buffer, pos, c.value);
          pos := pos + 1;
        } else {
          more := false;
        }
        if pos >= size - 1 {
          var copy := Grow(buffer, size, pos);
          if copy == null {
            return None;
          }
          buffer := copy;
          size := size + size;
        }
      }
      buffer[pos] := '\0';
      if pos == 0 {
        return None;
      }
      line := Some(buffer[..pos]);
    }

    /** Reading until nothing comes back. */
    method ReadLines() returns (ls: seq<string>)
      requires Valid() && Capacity(|Unread()|) <= memory
      modifies this`cursor
      ensures Valid() && ls == AllLines(old(Unread()))
    {
      ls := [];
      ghost var all := Unread();
      while true
        invariant Valid() && |Unread()| <= |all|
        invariant ls + AllLines(Unread()) == AllLines(all)
        decreases |Unread()|
      {
        ghost var s := Unread();
        BiggerLine(LineLength(s), |all|, 1024);
        var line := ReadLine();
        if line.None? {
          return;
        }
        Associates(ls, line.value, AllLines(Unread()));
        ls := ls + [line.value];
      }
    }
  }

  lemma Associates(ls: seq<string>, l: string, rest: seq<string>)
    ensures ls + ([l] + rest) == (ls + [l]) + rest
  {
  }

  lemma {:induction false} BiggerLine(n: nat, m: nat, size: nat)
    requires n <= m && size >= 1024
    ensures Capacity(n, size) <= Capacity(m, size)
    decreases m + 2 - size
  {
    if m + 1 >= size {
      if n + 1 >= size {
        BiggerLine(n, m, 2 * size);
      }
    }
  }
}
