/** C strings in buffers: cutting, printing at a position, and growing. */
module CStrings {
  import opened Text

  /** The C string that starts at the front of `s`. */
  function CString(s: string): string {
    Before(s, '\0')
  }

  predicate IsTerminated(s: string) {
    '\0' in s
  }

  /** `snprintf` at a position of a buffer: cut off to leave room for the terminator; the full length is returned. */
  method Snprintf(buf: array<char>, at: nat, text: string) returns (n: nat)
    requires at <= buf.Length
    modifies buf
    ensures n == |text|
    ensures |text| < buf.Length - at ==> buf[..at + |text| + 1] == old(buf[..at]) + text + "\0"
    ensures |text| >= buf.Length - at > 0 ==> buf[..] == old(buf[..at]) + text[..buf.Length - at - 1] + "\0"
  {
    n := |text|;
    if at < buf.Length {
      var k := if |text| < buf.Length - at then |text| else buf.Length - at - 1;
      forall i | 0 <= i < k { buf[at + i] := text[i]; }
      buf[at + k] := '\0';
      assert buf[..at + k + 1] == old(buf[..at]) + text[..k] + "\0";
      assert text[..|text|] == text;
    }
  }

  /** `strchr`, with the end of the string in place of NULL, and the cut that follows it. */
  method CutAt(buf: array<char>, from: nat, c: char) returns (token: string, at: nat)
    requires from <= buf.Length && IsTerminated(buf[from..]) && c != '\0'
    modifies buf
    ensures token == Before(old(CString(buf[from..])), c)
    ensures at == from + |token| < buf.Length
    ensures buf[..] == old(buf[..])[at := '\0']
  {
    ghost var s := buf[from..];
    at := from;
    while buf[at] != c && buf[at] != '\0'
      invariant from <= at < buf.Length && buf[..] == old(buf[..])
      invariant c !in buf[from..at] && '\0' !in buf[from..at] && IsTerminated(buf[at..])
      decreases buf.Length - at
    {
      assert buf[at] != '\0' && buf[at..] == [buf[at]] + buf[at + 1..];
      assert buf[from..at + 1] == buf[from..at] + [buf[at]];
      at := at + 1;
    }
    token := buf[from..at];
    assert token == s[..|token|] && s[|token|] == buf[at];
    CutWhere(s, c, token);
    buf[at] := '\0';
  }

  lemma CutWhere(s: string, c: char, token: string)
    requires IsTerminated(s) && c != '\0' && token < s && c !in token && '\0' !in token
    requires s[|token|] == c || s[|token|] == '\0'
    ensures Before(CString(s), c) == token
  {
    var t := CString(s);
    if s[|token|] == '\0' {
      BeforeIsUnique(s, '\0', token);
      BeforeIsUnique(t, c, token);
    } else {
      var longer := token + [c];
      assert longer == s[..|token| + 1];
      BeforeReaches(s, '\0', longer);
      assert t[|token|] == longer[|token|];
      BeforeIsUnique(t, c, token);
    }
  }

  method StrLen(s: array<char>) returns (n: nat)
    requires IsTerminated(s[..])
    ensures n == |CString(s[..])|
  {
    n := 0;
    while s[n] != '\0'
      invariant n < s.Length && '\0' !in s[..n] && IsTerminated(s[n..])
      decreases s.Length - n
    {
      assert s[n..] == [s[n]] + s[n + 1..];
      assert s[..n + 1] == s[..n] + [s[n]];
      n := n + 1;
    }
    BeforeIsUnique(s[..], '\0', s[..n]);
  }

  /* Printing a separated list. */

  function TotalLength(hosts: seq<string>): nat {
    if hosts == [] then 0 else |hosts[0]| + TotalLength(hosts[1..])
  }

  lemma {:induction false} JoinLength(parts: seq<string>, sep: char)
    requires parts != []
    ensures |Join(parts, sep)| == TotalLength(parts) + |parts| - 1
  {
    if |parts| > 1 {
      JoinLength(parts[1..], sep);
    }
  }

  /** The text after the first `i` entries, each with its separator. */
  lemma {:induction false} JoinSplits(parts: seq<string>, i: nat, sep: char)
    requires i < |parts|
    ensures Join(parts, sep) == Terminated(parts[..i], sep) + Join(parts[i..], sep)
  {
    if i > 0 {
      JoinSplits(parts[1..], i - 1, sep);
      assert parts[..i][1..] == parts[1..][..i - 1] && parts[1..][i - 1..] == parts[i..];
      assert parts[..i][0] == parts[0];
      var a, b, c := parts[0] + [sep], Terminated(parts[..i][1..], sep), Join(parts[i..], sep);
      assert a + (b + c) == (a + b) + c;
    } else {
      assert parts[i..] == parts;
    }
  }

  lemma {:induction false} TerminatedLast(parts: seq<string>, part: string, sep: char)
    ensures Terminated(parts + [part], sep) == Terminated(parts, sep) + part + [sep]
  {
    if parts == [] {
      assert [] + [part] == [part];
      assert Terminated([part][1..], sep) == "";
    } else {
      assert (parts + [part])[1..] == parts[1..] + [part];
      TerminatedLast(parts[1..], part, sep);
      var a, b := parts[0] + [sep], Terminated(parts[1..], sep);
      assert a + (b + part + [sep]) == (a + b) + part + [sep];
    }
  }

  lemma NothingWritten(entries: seq<string>, s: string, sep: char)
    requires s == ""
    ensures s == Terminated(entries[..0], sep)
  {
  }

  lemma EntryDone(entries: seq<string>, i: nat, sep: char)
    requires i < |entries|
    ensures Terminated(entries[..i + 1], sep) == Terminated(entries[..i], sep) + entries[i] + [sep]
  {
    assert entries[..i + 1] == entries[..i] + [entries[i]];
    TerminatedLast(entries[..i], entries[i], sep);
  }

  /** Room when entry `i` is reached: more than the entry and a separator, except for the last, whose terminator
      takes the last byte. */
  lemma FitsAt(entries: seq<string>, i: nat, sep: char)
    requires i < |entries|
    ensures var done := |Terminated(entries[..i], sep)|; var room := |Join(entries, sep)| + 1 - done;
            if i + 1 < |entries| then |entries[i]| + 1 < room
            else room == |entries[i]| + 1 && Join(entries, sep) == Terminated(entries[..i], sep) + entries[i]
  {
    JoinSplits(entries, i, sep);
    if i + 1 == |entries| {
      assert entries[i..] == [entries[i]];
    } else {
      assert entries[i..][0] == entries[i];
    }
  }

  /** One `snprintf` of an entry and the character `c` into a buffer that has room for all entries, the separators
      between them and a terminator: what follows the last entry is cut off. */
  method WriteEntry(buf: array<char>, w: nat, entry: string, c: char, ghost sep: char,
      ghost entries: seq<string>, ghost i: nat) returns (next: nat)
    requires i < |entries| && entry == entries[i] && (i + 1 < |entries| ==> c == sep)
    requires buf.Length == |Join(entries, sep)| + 1
    requires w <= buf.Length && buf[..w] == Terminated(entries[..i], sep)
    modifies buf
    ensures i + 1 < |entries| ==> next <= buf.Length && buf[..next] == Terminated(entries[..i + 1], sep)
    ensures i + 1 == |entries| ==> buf[..] == Join(entries, sep) + "\0"
  {
    hide Join, Terminated;
    var text := entry + [c];
    FitsAt(entries, i, sep);
    var printed := Snprintf(buf, w, text);
    next := w + printed;
    if next > buf.Length - 1 {
      assert text[..|text| - 1] == entry;
    } else {
      EntryDone(entries, i, sep);
      assert buf[..next] == buf[..next + 1][..next];
      assert buf[..next] == Terminated(entries[..i], sep) + entry + [sep];
    }
  }

  /* alloc_strcatf */

  class StringBuffer {
    var cells: array<char>
    var length: nat

    ghost predicate Valid()
      reads this, cells
    {
      length < cells.Length && cells[length] == '\0'
    }

    ghost function Contents(): (s: string)
      requires Valid()
      reads this, cells
    {
      cells[..length]
    }

    /** A buffer just large enough for `text`. */
    constructor (text: string)
      ensures Valid() && Contents() == text && fresh(cells)
    {
      var buf := new char[|text| + 1];
      forall i | 0 <= i < |text| { buf[i] := text[i]; }
      buf[|text|] := '\0';
      cells, length := buf, |text|;
      new;
      assert cells[..length] == text;
    }

    /** Print at the end; as long as the text does not fit, take a larger buffer and print again. */
    method Append(text: string)
      requires Valid()
      modifies this, cells
      ensures Valid() && (cells == old(cells) || fresh(cells))
      ensures Contents() == old(Contents()) + text
    {
      var done := false;
      while !done
        invariant length == old(length) < cells.Length && (cells == old(cells) || fresh(cells))
        invariant !done ==> cells[..length] == old(Contents())
        invariant done ==> |text| < cells.Length - length
        invariant done ==> cells[..length + |text| + 1] == old(Contents()) + text + "\0"
        decreases !done, length + |text| + 1 - cells.Length
      {
        var n := Snprintf(cells, length, text);
        if n >= cells.Length - length {
          assert cells[..][..length] == old(Contents());
          var capacity := if cells.Length * 2 + 1 < n + 1 then n + 1 else cells.Length * 2 + 1;
          var grown := new char[capacity];
          forall i | 0 <= i < cells.Length { grown[i] := cells[i]; }
          assert grown[..length] == cells[..length];
          cells := grown;
        } else {
          done := true;
        }
      }
      ghost var s := cells[..length + |text| + 1];
      assert s[length + |text|] == '\0' && s[..length + |text|] == old(Contents()) + text;
      length := length + |text|;
    }
  }
}
