/** The node list: written by the Slurm plugin (shifterSpank.c), read when the host file is made (shifter_core.c). */
module NodeList {
  import opened Wrappers
  import opened Text
  import opened Decimal
  import opened CStrings

  const LONG_MAX: int := 0x7FFF_FFFF_FFFF_FFFF
  const INT_RANGE: int := 0x1_0000_0000
  const INT_MAX: int := 0x7FFF_FFFF

  /* The writer. */

  predicate HostName(h: string) {
    ',' !in h && '\0' !in h
  }

  predicate HostNames(hosts: seq<string>) {
    forall i :: 0 <= i < |hosts| ==> HostName(hosts[i])
  }

  function Entry(host: string, tasks: nat): string {
    host + "/" + Digits(tasks)
  }

  function Entries(hosts: seq<string>, tasks: nat): (r: seq<string>)
    ensures |r| == |hosts|
    ensures forall i {:trigger r[i]} :: 0 <= i < |r| ==> r[i] == Entry(hosts[i], tasks)
  {
    seq(|hosts|, i requires 0 <= i < |hosts| => Entry(hosts[i], tasks))
  }

  /** The node list as text: `host/tasks`, separated by spaces. */
  function NodeSpec(hosts: seq<string>, tasks: nat): string {
    Join(Entries(hosts, tasks), ' ')
  }

  lemma {:induction false} EntriesLength(hosts: seq<string>, tasks: nat)
    ensures TotalLength(Entries(hosts, tasks)) == TotalLength(hosts) + |hosts| * (1 + |Digits(tasks)|)
  {
    hide Digits;
    if hosts != [] {
      var d := 1 + |Digits(tasks)|;
      assert Entries(hosts, tasks)[1..] == Entries(hosts[1..], tasks);
      EntriesLength(hosts[1..], tasks);
      assert |hosts[1..]| * d + d == |hosts| * d;
    }
  }

  /** The size the plugin computes is that of the text and its terminator, with nothing to spare. */
  lemma BufferFits(hosts: seq<string>, tasks: nat)
    ensures |Join(hosts, ',')| - |hosts| + (2 + |Digits(tasks)|) * |hosts| + 1 == |NodeSpec(hosts, tasks)| + 1
  {
    if hosts != [] {
      JoinLength(hosts, ',');
      JoinLength(Entries(hosts, tasks), ' ');
      EntriesLength(hosts, tasks);
    }
  }

  /** What is left of the raw list when the first host is cut off. */
  lemma NextHost(raw: string, hosts: seq<string>)
    requires HostNames(hosts) && hosts != []
    requires IsTerminated(raw) && CString(raw) == Join(hosts, ',')
    ensures Before(CString(raw), ',') == hosts[0]
    ensures |hosts| > 1 ==> |hosts[0]| + 1 <= |raw| && IsTerminated(raw[|hosts[0]| + 1..])
                            && CString(raw[|hosts[0]| + 1..]) == Join(hosts[1..], ',')
  {
    var h, s := hosts[0], CString(raw);
    assert HostName(h) && h <= s;
    BeforeIsUnique(s, ',', h);
    if |hosts| > 1 {
      var rest := raw[|h| + 1..];
      assert s[|h| + 1..] == Join(hosts[1..], ',');
      assert s == raw[..|s|] && '\0' !in s;
      assert |s| < |raw| by {
        assert raw[..|raw|] == raw;
      }
      assert rest[|s| - |h| - 1] == raw[|s|] == '\0';
      assert rest[..|s| - |h| - 1] == s[|h| + 1..];
      BeforeIsUnique(rest, '\0', s[|h| + 1..]);
    }
  }

  /** Cut the first host off the raw list. */
  method TakeHost(raw: array<char>, r: nat, ghost hosts: seq<string>) returns (host: string, e: nat)
    requires HostNames(hosts) && hosts != [] && r <= raw.Length
    requires IsTerminated(raw[r..]) && CString(raw[r..]) == Join(hosts, ',')
    modifies raw
    ensures host == hosts[0] && e < raw.Length
    ensures |hosts| > 1 ==> IsTerminated(raw[e + 1..]) && CString(raw[e + 1..]) == Join(hosts[1..], ',')
  {
    hide Join, CString, IsTerminated;
    ghost var left := raw[r..];
    NextHost(left, hosts);
    host, e := CutAt(raw, r, ',');
    assert raw[e + 1..] == left[|host| + 1..];
  }

  /** read_data_from_job, the part that rewrites the host list */
  method WriteNodeList(raw: array<char>, ghost hosts: seq<string>, n: nat, tasks: nat) returns (nodelist: array<char>)
    requires n == |hosts| && HostNames(hosts)
    requires IsTerminated(raw[..]) && CString(raw[..]) == Join(hosts, ',')
    modifies raw
    ensures fresh(nodelist) && nodelist.Length == |NodeSpec(hosts, tasks)| + 1
    ensures n > 0 ==> nodelist[..] == NodeSpec(hosts, tasks) + "\0"
  {
    hide Join, Terminated, TotalLength, CString, IsTerminated, Digits;
    ghost var entries := Entries(hosts, tasks);
    var tmp := Digits(tasks);
    var overhead := 2 + |tmp|;
    var length := StrLen(raw);
    BufferFits(hosts, tasks);
    var total := length - n + overhead * n + 1;
    nodelist := new char[total];
    var r: nat, w: nat, i := 0, 0, 0;
    assert raw[0..] == raw[..] && hosts[0..] == hosts;
    NothingWritten(entries, nodelist[..0], ' ');
    while i < n
      invariant i <= n && nodelist.Length == |NodeSpec(hosts, tasks)| + 1
      invariant i < n ==> r <= raw.Length && IsTerminated(raw[r..]) && CString(raw[r..]) == Join(hosts[i..], ',')
      invariant i < n ==> w <= nodelist.Length && nodelist[..w] == Terminated(entries[..i], ' ')
      invariant i == n > 0 ==> nodelist[..] == NodeSpec(hosts, tasks) + "\0"
    {
      var host, e := TakeHost(raw, r, hosts[i..]);
      assert hosts[i..][1..] == hosts[i + 1..];
      ghost var behind := raw[e + 1..];
      w := WriteEntry(nodelist, w, host + "/" + tmp, if i + 1 == n then '\0' else ' ', ' ', entries, i);
      r := e + 1;
      assert raw[r..] == behind;
      i := i + 1;
    }
  }

  /* The reader. */

  /** `(int) strtol(s, NULL, 10)` */
  function ToInt(s: string): int {
    var n := ScanNumber(s);
    var v: int := Value(n.digits);
    var l: int := if n.negative then (if v > LONG_MAX + 1 then -LONG_MAX - 1 else -v)
      else if v > LONG_MAX then LONG_MAX else v;
    var low := l % INT_RANGE;
    if low > INT_MAX then low - INT_RANGE else low
  }

  function Repeat(line: string, n: int): (r: seq<string>)
    ensures |r| == if n < 0 then 0 else n
    ensures forall i :: 0 <= i < |r| ==> r[i] == line
  {
    seq(if n < 0 then 0 else n, _ => line)
  }

  /** The lines of the host file for a node list; None when the list is not understood. */
  function HostLines(spec: string): Option<seq<string>>
    decreases |spec|
  {
    if spec == "" then Some([])
    else
      var host := Before(spec, '/');
      if |host| == |spec| then None
      else
        var rest := spec[|host| + 1..];
        var number := Before(rest, ' ');
        if ToInt(number) == 0 then None
        else
          var tail := HostLines(if |number| < |rest| then rest[|number| + 1..] else "");
          if tail.None? then None else Some(Repeat(host, ToInt(number)) + tail.value)
  }

  lemma NoHosts()
    ensures HostLines("") == Some([])
  {
  }

  lemma HostStep(s: string)
    requires s != ""
    ensures var host := Before(s, '/');
            if |host| == |s| then HostLines(s) == None
            else
              var rest := s[|host| + 1..]; var number := Before(rest, ' ');
              var tail := HostLines(if |number| < |rest| then rest[|number| + 1..] else "");
              HostLines(s) ==
                if ToInt(number) == 0 || tail.None? then None else Some(Repeat(host, ToInt(number)) + tail.value)
  {
    hide ToInt, Before;
  }

  /** The lines of one host. */
  method WriteHost(host: string, count: int) returns (lines: seq<string>)
    ensures lines == Repeat(host, count)
  {
    lines := [];
    var idx := 0;
    while idx < count
      invariant 0 <= idx && (count > 0 ==> idx <= count)
      invariant count <= 0 ==> idx == 0
      invariant lines == Repeat(host, idx)
    {
      assert Repeat(host, idx + 1) == Repeat(host, idx) + [host];
      lines := lines + [host];
      idx := idx + 1;
    }
    assert Repeat(host, idx) == Repeat(host, count);
  }

  /** writeHostFile; `file` has the lines written so far when the list is not understood. */
  method WriteHostFile(spec: string) returns (ok: bool, file: seq<string>)
    ensures ok <==> HostLines(spec).Some?
    ensures ok ==> file == HostLines(spec).value
  {
    hide ToInt, Before, HostLines, Repeat;
    file := [];
    var s := spec;
    NoHosts();
    while s != ""
      invariant HostLines(spec).Some? <==> HostLines(s).Some?
      invariant HostLines(s).Some? ==> HostLines(spec).value == file + HostLines(s).value
      decreases |s|
    {
      HostStep(s);
      var host := Before(s, '/');
      if |host| == |s| { return false, file; }
      var rest := s[|host| + 1..];
      var number := Before(rest, ' ');
      var count := ToInt(number);
      if count == 0 { return false, file; }
      ghost var start := file;
      var lines := WriteHost(host, count);
      file := file + lines;
      s := if |number| < |rest| then rest[|number| + 1..] else "";
      if HostLines(s).Some? {
        assert start + (Repeat(host, count) + HostLines(s).value) == file + HostLines(s).value;
      }
    }
    assert file + [] == file;
    ok := true;
  }

  /* The two together. */

  /** Every host in order, each `n` times. */
  function Each(hosts: seq<string>, n: int): seq<string> {
    if hosts == [] then [] else Repeat(hosts[0], n) + Each(hosts[1..], n)
  }

  lemma {:induction false} EachLength(hosts: seq<string>, n: int)
    ensures |Each(hosts, n)| == |hosts| * (if n < 0 then 0 else n)
  {
    if hosts != [] {
      EachLength(hosts[1..], n);
    }
  }

  lemma OneEntry(host: string, tasks: nat, tail: string)
    requires '/' !in host
    requires tail == "" || tail[0] == ' '
    ensures var spec := Entry(host, tasks) + tail;
            Before(spec, '/') == host && |host| < |spec|
            && Before(spec[|host| + 1..], ' ') == Digits(tasks) && spec[|host| + 1..] == Digits(tasks) + tail
  {
    var spec := Entry(host, tasks) + tail;
    assert host <= spec && spec[|host|] == '/';
    BeforeIsUnique(spec, '/', host);
    var rest := spec[|host| + 1..];
    assert rest == Digits(tasks) + tail;
    assert ' ' !in Digits(tasks);
    BeforeIsUnique(rest, ' ', Digits(tasks));
  }

  /** Reading back what was written, for any number of tasks. */
  lemma {:induction false} NodeListRead(hosts: seq<string>, tasks: nat)
    requires forall i :: 0 <= i < |hosts| ==> '/' !in hosts[i]
    requires hosts != []
    ensures HostLines(NodeSpec(hosts, tasks)) ==
            if ToInt(Digits(tasks)) == 0 then None else Some(Each(hosts, ToInt(Digits(tasks))))
  {
    hide ToInt, Digits;
    var entries, spec := Entries(hosts, tasks), NodeSpec(hosts, tasks);
    var count := ToInt(Digits(tasks));
    if |hosts| == 1 {
      OneEntry(hosts[0], tasks, "");
      assert spec == Entry(hosts[0], tasks) + "";
      assert Digits(tasks) + "" == Digits(tasks);
      assert Each(hosts[1..], count) == [];
    } else {
      var more := NodeSpec(hosts[1..], tasks);
      assert entries[1..] == Entries(hosts[1..], tasks);
      OneEntry(hosts[0], tasks, " " + more);
      assert spec == Entry(hosts[0], tasks) + (" " + more);
      assert (Digits(tasks) + (" " + more))[|Digits(tasks)| + 1..] == more;
      NodeListRead(hosts[1..], tasks);
    }
  }

  lemma ToIntOfDigits(tasks: nat)
    ensures ToInt(Digits(tasks)) == tasks <==> tasks <= INT_MAX
  {
    hide ScanNumber, Digits, Value;
    ScanDigits(tasks, "");
    assert Digits(tasks) + "" == Digits(tasks);
  }

  /** A count is cut off at the ends of 64 bits and narrowed to 32 bits with a sign. */
  lemma CountIsNarrowed(n: nat)
    ensures ToInt(Digits(n)) ==
              if n < 0x8000_0000_0000_0000 then (n + 0x8000_0000) % 0x1_0000_0000 - 0x8000_0000 else -1
    ensures ToInt("-" + Digits(n)) ==
              if n <= 0x8000_0000_0000_0000 then (0x8000_0000 - n) % 0x1_0000_0000 - 0x8000_0000 else 0
  {
    hide ScanNumber, Digits, Value;
    ScanSigned(n);
    ValueOfDigits(n);
    var m: int := if n <= 0x8000_0000_0000_0000 then n else 0x8000_0000_0000_0000;
    Narrowing(-m);
    Narrowing(if n < 0x8000_0000_0000_0000 then n else 0x7FFF_FFFF_FFFF_FFFF);
  }

  lemma Narrowing(l: int)
    ensures var low := l % INT_RANGE;
            (if low > INT_MAX then low - INT_RANGE else low) == (l + 0x8000_0000) % 0x1_0000_0000 - 0x8000_0000
  {
    var q, low := l / INT_RANGE, l % INT_RANGE;
    if low > INT_MAX {
      assert l + 0x8000_0000 == INT_RANGE * (q + 1) + (low - 0x8000_0000);
    } else {
      assert l + 0x8000_0000 == INT_RANGE * q + (low + 0x8000_0000);
    }
  }

  /** An entry without a slash is not understood, nor is one whose count is 0; a negative count gives no lines. */
  lemma BadEntries(host: string, number: string, tail: string)
    requires '/' !in host && ' ' !in number
    ensures host != "" ==> HostLines(host) == None
    ensures ToInt(number) == 0 ==> HostLines(host + "/" + number) == None
    ensures ToInt(number) < 0 ==> HostLines(host + "/" + number + " " + tail) == HostLines(tail)
  {
    hide ToInt;
    BeforeIsUnique(host, '/', host);
    var spec := host + "/" + number;
    assert host <= spec && spec[|host|] == '/' && spec[|host| + 1..] == number;
    BeforeIsUnique(spec, '/', host);
    BeforeIsUnique(number, ' ', number);
    var more := spec + " " + tail;
    var rest := number + " " + tail;
    assert host <= more && more[|host|] == '/' && more[|host| + 1..] == rest;
    BeforeIsUnique(more, '/', host);
    assert number <= rest && rest[|number|] == ' ' && rest[|number| + 1..] == tail;
    BeforeIsUnique(rest, ' ', number);
    if ToInt(number) < 0 && HostLines(tail).Some? {
      assert Repeat(host, ToInt(number)) + HostLines(tail).value == HostLines(tail).value;
    }
  }

  /** The host file has every host exactly `tasks` times, in order, exactly when `tasks` is a positive `int`. */
  lemma HostFileExact(hosts: seq<string>, tasks: nat)
    requires forall i :: 0 <= i < |hosts| ==> '/' !in hosts[i]
    requires hosts != []
    ensures HostLines(NodeSpec(hosts, tasks)) == Some(Each(hosts, tasks)) <==> 1 <= tasks <= INT_MAX
  {
    hide ToInt, Each, HostLines;
    NodeListRead(hosts, tasks);
    ToIntOfDigits(tasks);
    var count := ToInt(Digits(tasks));
    EachLength(hosts, count);
    EachLength(hosts, tasks);
    if count != tasks {
      var got := if count < 0 then 0 else count;
      assert got == tasks ==> tasks == 0;
      DifferentProducts(|hosts|, got, tasks);
    }
  }

  lemma DifferentProducts(n: nat, a: nat, b: nat)
    requires n > 0
    ensures n * a == n * b <==> a == b
  {
  }
}
