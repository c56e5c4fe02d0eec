/** The table of stubbed imports and the lookup of an import name in it (api_stubs.hpp). */
module Dispatch {
  import opened Basics

  datatype Handler =
    | Malloc | Calloc | Realloc | Free | HeapAlloc | HeapReAlloc | VirtualAlloc | LocalAlloc | GetProcessHeap
    | Memcpy | Memset | Memcmp | Strlen | Wcslen | Strcpy | Strncpy | Wcscpy | Wcsncpy | Strcat | Wcscat
    | RtlZeroMemory | RtlFillMemory

  datatype Entry = Entry(name: string, handler: Handler)

  const TABLE: seq<Entry> := [
    Entry("malloc", Malloc), Entry("calloc", Calloc), Entry("realloc", Realloc), Entry("free", Free),
    Entry("HeapAlloc", HeapAlloc), Entry("HeapFree", Free), Entry("HeapReAlloc", HeapReAlloc),
    Entry("VirtualAlloc", VirtualAlloc), Entry("VirtualFree", Free),
    Entry("LocalAlloc", LocalAlloc), Entry("LocalFree", Free), Entry("GlobalAlloc", LocalAlloc), Entry("GlobalFree", Free),
    Entry("GetProcessHeap", GetProcessHeap),
    Entry("memcpy", Memcpy), Entry("memmove", Memcpy), Entry("memset", Memset), Entry("memcmp", Memcmp),
    Entry("strlen", Strlen), Entry("wcslen", Wcslen),
    Entry("strcpy", Strcpy), Entry("strncpy", Strncpy), Entry("wcscpy", Wcscpy), Entry("wcsncpy", Wcsncpy),
    Entry("strcat", Strcat), Entry("wcscat", Wcscat),
    Entry("RtlMoveMemory", Memcpy), Entry("RtlZeroMemory", RtlZeroMemory), Entry("RtlFillMemory", RtlFillMemory),
    Entry("lstrlenA", Strlen), Entry("lstrlenW", Wcslen), Entry("lstrcpyA", Strcpy), Entry("lstrcpyW", Wcscpy),
    Entry("lstrcpynA", Strncpy), Entry("lstrcpynW", Wcsncpy)
  ]

  /** The handler of the first entry, from k on, that has the name. */
  function LookupIn(table: seq<Entry>, name: string, k: nat): (h: Option<Handler>)
    requires k <= |table|
    decreases |table| - k
  {
    if k == |table| then None
    else if name == table[k].name then Some(table[k].handler)
    else LookupIn(table, name, k + 1)
  }

  function Lookup(name: string, k: nat): (h: Option<Handler>)
    requires k <= |TABLE|
  {
    LookupIn(TABLE, name, k)
  }

  /** Entry j is the first, from k on, that has the name. */
  predicate IsFirstWith(table: seq<Entry>, name: string, k: nat, j: nat) {
    k <= j < |table| && table[j].name == name && forall i :: k <= i < j ==> table[i].name != name
  }

  lemma {:induction false} LookupInIff(table: seq<Entry>, name: string, k: nat, h: Handler)
    requires k <= |table|
    ensures LookupIn(table, name, k) == Some(h) <==> exists j: nat :: IsFirstWith(table, name, k, j) && table[j].handler == h
    ensures LookupIn(table, name, k) == None <==> forall j :: k <= j < |table| ==> table[j].name != name
    decreases |table| - k
  {
    hide IsFirstWith;
    if k < |table| {
      LookupInIff(table, name, k + 1, h);
      if table[k].name == name {
        FirstHere(table, name, k);
      } else {
        FirstLater(table, name, k);
      }
    } else {
      NoneLeft(table, name, k);
    }
  }

  lemma FirstHere(table: seq<Entry>, name: string, k: nat)
    requires k < |table| && table[k].name == name
    ensures forall j: nat :: IsFirstWith(table, name, k, j) <==> j == k
  {
  }

  lemma FirstLater(table: seq<Entry>, name: string, k: nat)
    requires k < |table| && table[k].name != name
    ensures forall j: nat :: IsFirstWith(table, name, k, j) <==> IsFirstWith(table, name, k + 1, j)
  {
  }

  lemma NoneLeft(table: seq<Entry>, name: string, k: nat)
    requires k >= |table|
    ensures forall j: nat :: !IsFirstWith(table, name, k, j)
  {
  }

  /** What a lookup finds: the handler of the first entry with the name, and nothing exactly if no entry has it. */
  lemma LookupIff(name: string, h: Handler)
    ensures Lookup(name, 0) == Some(h) <==> exists j: nat :: IsFirstWith(TABLE, name, 0, j) && TABLE[j].handler == h
    ensures Lookup(name, 0) == None <==> forall j :: 0 <= j < |TABLE| ==> TABLE[j].name != name
  {
    hide LookupIn, IsFirstWith;
    LookupInIff(TABLE, name, 0, h);
  }

  method FindStub(name: string) returns (h: Option<Handler>)
    ensures h == Lookup(name, 0)
  {
    hide *;
    for k := 0 to |TABLE|
      invariant Lookup(name, k) == Lookup(name, 0)
    {
      LookupStep(name, k);
      if name == TABLE[k].name {
        return Some(TABLE[k].handler);
      }
    }
    LookupStep(name, |TABLE|);
    h := None;
  }

  lemma LookupStep(name: string, k: nat)
    requires k <= |TABLE|
    ensures k == |TABLE| ==> Lookup(name, k) == None
    ensures k < |TABLE| ==>
      Lookup(name, k) == if name == TABLE[k].name then Some(TABLE[k].handler) else Lookup(name, k + 1)
  {
  }

  /** The text after the last underscore. */
  function AfterLast(name: string): (s: string)
    ensures '_' !in s
    ensures |s| <= |name| && s == name[|name| - |s|..]
    ensures |s| < |name| ==> name[|name| - |s| - 1] == '_'
  {
    if name == [] then []
    else if name[|name| - 1] == '_' then []
    else
      var rest := AfterLast(name[..|name| - 1]);
      LastLetter(name, |name| - 1 - |rest|);
      rest + [name[|name| - 1]]
  }

  lemma LastLetter(name: string, at: nat)
    requires at < |name|
    ensures name[at..] == name[..|name| - 1][at..] + [name[|name| - 1]]
  {
  }

  lemma TableNamesArePlain(k: nat)
    requires k < |TABLE|
    ensures Plain(TABLE[k].name)
  {
    hide Plain;
    PlainHeapNames();
    PlainPageNames();
    PlainBlockNames();
    PlainTextNames();
    PlainWindowsTextNames();
  }

  predicate Plain(name: string) {
    name != [] && '_' !in name
  }

  lemma PlainHeapNames()
    ensures Plain("malloc") && Plain("calloc") && Plain("realloc") && Plain("free")
    ensures Plain("HeapAlloc") && Plain("HeapFree") && Plain("HeapReAlloc")
  {
  }

  lemma PlainPageNames()
    ensures Plain("VirtualAlloc") && Plain("VirtualFree") && Plain("LocalAlloc") && Plain("LocalFree")
    ensures Plain("GlobalAlloc") && Plain("GlobalFree") && Plain("GetProcessHeap")
  {
  }

  lemma PlainBlockNames()
    ensures Plain("memcpy") && Plain("memmove") && Plain("memset") && Plain("memcmp")
    ensures Plain("RtlMoveMemory") && Plain("RtlZeroMemory") && Plain("RtlFillMemory")
  {
  }

  lemma PlainTextNames()
    ensures Plain("strlen") && Plain("wcslen") && Plain("strcpy") && Plain("strncpy")
    ensures Plain("wcscpy") && Plain("wcsncpy") && Plain("strcat") && Plain("wcscat")
  {
  }

  lemma PlainWindowsTextNames()
    ensures Plain("lstrlenA") && Plain("lstrlenW") && Plain("lstrcpyA") && Plain("lstrcpyW")
    ensures Plain("lstrcpynA") && Plain("lstrcpynW")
  {
  }

  lemma {:induction false} OnlyPlainNamesAreFound(name: string, k: nat)
    requires k <= |TABLE| && ('_' in name || name == [])
    ensures Lookup(name, k) == None
    decreases |TABLE| - k
  {
    hide Lookup;
    LookupStep(name, k);
    if k < |TABLE| {
      TableNamesArePlain(k);
      OnlyPlainNamesAreFound(name, k + 1);
    }
  }

  lemma {:induction false} AfterLastIsUnique(name: string, cut: nat)
    requires cut <= |name| && '_' !in name[cut..] && (cut > 0 ==> name[cut - 1] == '_')
    ensures AfterLast(name) == name[cut..]
  {
    var s := AfterLast(name);
    var at := |name| - |s|;
    if at < cut || at > cut {
      assert false;
    }
  }

  /** std::string_view::rfind of the underscore: its last position, or |name| when there is none. */
  method LastUnderscore(name: string) returns (pos: nat)
    ensures pos <= |name|
    ensures pos == |name| ==> '_' !in name
    ensures pos < |name| ==> name[pos] == '_' && '_' !in name[pos + 1..]
  {
    pos := |name|;
    while pos > 0
      invariant pos <= |name| && '_' !in name[pos..]
    {
      if name[pos - 1] == '_' {
        return pos - 1;
      }
      pos := pos - 1;
      assert name[pos..] == [name[pos]] + name[pos + 1..];
    }
    pos := |name|;
  }

  /** The three lookups find the stub of the text after the last underscore, for every import name. */
  method TryDispatch(name: string) returns (fn: Option<Handler>)
    ensures fn == Lookup(AfterLast(name), 0)
  {
    hide *;
    fn := FindStub(name);
    if fn != None {
      if '_' in name {
        OnlyPlainNamesAreFound(name, 0);
        assert false;
      }
      AfterLastIsUnique(name, 0);
      assert name[0..] == name;
      return;
    }
    var stripped := name;
    ghost var cut := 0;
    while stripped != [] && stripped[0] == '_'
      invariant cut <= |name| && stripped == name[cut..] && (cut > 0 ==> name[cut - 1] == '_')
      decreases |stripped|
    {
      stripped := stripped[1..];
      cut := cut + 1;
    }
    if '_' !in stripped {
      AfterLastIsUnique(name, cut);
    } else {
      OnlyPlainNamesAreFound(stripped, 0);
    }
    if stripped != name {
      fn := FindStub(stripped);
      if fn != None {
        return;
      }
    }
    var pos := LastUnderscore(name);
    if pos < |name| {
      AfterLastIsUnique(name, pos + 1);
    } else {
      AfterLastIsUnique(name, 0);
      assert name[0..] == name;
    }
    if pos < |name| && pos + 1 < |name| {
      var suffix := name[pos + 1..];
      if suffix != stripped {
        fn := FindStub(suffix);
        if fn != None {
          return;
        }
      }
      fn := None;
    } else if pos < |name| {
      OnlyPlainNamesAreFound([], 0);
    }
  }
}
