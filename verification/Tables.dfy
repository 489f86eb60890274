/** Header tables: names are compared without regard to case (apr_table_t). */
module Tables {
  import opened Wrappers
  import opened CStrings

  type Table = map<string, string>

  function Lookup(t: Table, name: string): Option<string> {
    if LowerCase(name) in t then Some(t[LowerCase(name)]) else None
  }

  function Set(t: Table, name: string, value: string): Table {
    t[LowerCase(name) := value]
  }

  lemma LookupSet(t: Table, name: string, value: string, other: string)
    ensures Lookup(Set(t, name, value), other)
         == if SameIgnoringCase(other, name) then Some(value) else Lookup(t, other)
  {
    hide LowerCase, SameIgnoringCase;
    LowerCaseExact(other, name);
  }

  lemma LookupSame(t: Table, a: string, b: string)
    requires SameIgnoringCase(a, b)
    ensures Lookup(t, a) == Lookup(t, b)
  {
    hide LowerCase, SameIgnoringCase;
    LowerCaseExact(a, b);
  }
}
