/*
 * The access-log pattern converter that prints entries of the mapped
 * diagnostic context (MDC) captured for a request.
 *
 * Configured with a key (optionally with a default, as "key:-default") it
 * prints that key's value; configured with no key it prints every entry as
 * "k0=v0, k1=v1". When the request carries no MDC it prints the default.
 */
module MdcAccessLog {
  import opened Wrappers

  datatype Entry = Entry(key: string, value: string)

  /** A request's MDC, as its entries in the map's iteration order. */
  type Mdc = seq<Entry>

  /** The request as far as the converter sees it: the MDC stored in its
      attribute by the request log handler, if any. */
  datatype Request = Request(mdc: Option<Mdc>)

  /** An access event: the request it carries, if any. */
  datatype AccessEvent = AccessEvent(request: Option<Request>)

  predicate DistinctKeys(mdc: Mdc) {
    forall i, j | 0 <= i < j < |mdc| :: mdc[i].key != mdc[j].key
  }

  /** The value stored under `key`. */
  function Lookup(mdc: Mdc, key: string): (r: Option<string>)
    ensures r.Some? ==> Entry(key, r.value) in mdc
    ensures r.None? <==> forall e | e in mdc :: e.key != key
  {
    if mdc == [] then None
    else if mdc[0].key == key then Some(mdc[0].value)
    else Lookup(mdc[1..], key)
  }

  /** One entry as printed: key, '=', value. */
  function Render(e: Entry): string {
    e.key + "=" + e.value
  }

  /** All entries printed in order and separated by ", ". */
  function Joined(mdc: Mdc): (r: string)
    ensures r == "" <==> mdc == []
    decreases |mdc|
  {
    if mdc == [] then ""
    else if |mdc| == 1 then Render(mdc[0])
    else Joined(mdc[..|mdc| - 1]) + ", " + Render(mdc[|mdc| - 1])
  }

  class MdcConverter {
    /** The MDC key to print, or None to print every entry. */
    var key: Option<string>
    /** What is printed when there is no MDC or the key is absent. */
    var defaultValue: string
    /** The started flag kept by the converter's base class. */
    var started: bool

    constructor ()
      ensures key == None && defaultValue == "" && !started
    {
      key := None;
      defaultValue := "";
      started := false;
    }

    /** Configure from the first option, already split at ":-" into the key
        and the default (None where the option has no such part). A missing
        default keeps the current one. */
    method Start(keyPart: Option<string>, defaultPart: Option<string>)
      modifies this
      ensures key == keyPart
      ensures defaultValue == defaultPart.GetOr(old(defaultValue))
      ensures started
    {
      key := keyPart;
      if defaultPart.Some? {
        defaultValue := defaultPart.value;
      }
      started := true;
    }

    /** Forget the configuration. */
    method Stop()
      modifies this
      ensures key == None && defaultValue == "" && !started
    {
      key := None;
      defaultValue := "";
      started := false;
    }

    /** The text printed for one access event. */
    method Convert(event: AccessEvent) returns (s: string)
      ensures event.request.None? || event.request.value.mdc.None? ==> s == defaultValue
      ensures event.request.Some? && event.request.value.mdc.Some? ==>
                var mdc := event.request.value.mdc.value;
                && (key.None? ==> s == Joined(mdc))
                && (key.Some? && Lookup(mdc, key.value).Some? ==> Entry(key.value, s) in mdc)
                && (key.Some? && Lookup(mdc, key.value).None? ==> s == defaultValue)
    {
      var mdc: Option<Mdc> := None;
      if event.request.Some? {
        mdc := ExtractMdc(event.request.value);
      }
      if mdc.None? {
        return defaultValue;
      }
      if key.None? {
        s := OutputMdcForAllKeys(mdc.value);
      } else {
        var value := Lookup(mdc.value, key.value);
        if value.Some? {
          s := value.value;
        } else {
          s := defaultValue;
        }
      }
    }
  }

  /** The MDC the request log handler stored on the request, if any. */
  function ExtractMdc(request: Request): Option<Mdc> {
    request.mdc
  }

  /** Print every entry, a separator before all but the first. */
  method OutputMdcForAllKeys(mdc: Mdc) returns (s: string)
    ensures s == Joined(mdc)
  {
    s := "";
    var first := true;
    for i := 0 to |mdc|
      invariant first <==> i == 0
      invariant s == Joined(mdc[..i])
    {
      if first {
        first := false;
      } else {
        s := s + ", ";
      }
      s := s + Render(mdc[i]);
      assert mdc[..i + 1][..i] == mdc[..i];
    }
    assert mdc[..|mdc|] == mdc;
  }
}

/** Properties of the converter's output. */
module MdcAccessLogProperties {
  import opened Wrappers
  import opened MdcAccessLog

  /** On a map (keys distinct) lookup finds exactly the stored pairs. */
  lemma {:induction false} LookupFindsStoredValue(mdc: Mdc, key: string, value: string)
    requires DistinctKeys(mdc)
    ensures Lookup(mdc, key) == Some(value) <==> Entry(key, value) in mdc
    decreases |mdc|
  {
    if mdc != [] && mdc[0].key != key {
      assert DistinctKeys(mdc[1..]) by {
        forall i, j | 0 <= i < j < |mdc[1..]| ensures mdc[1..][i].key != mdc[1..][j].key {
          assert mdc[1..][i] == mdc[i + 1] && mdc[1..][j] == mdc[j + 1];
        }
      }
      LookupFindsStoredValue(mdc[1..], key, value);
      assert mdc == [mdc[0]] + mdc[1..];
    }
  }

  /** Printing one more entry adds a separator and that entry. */
  lemma JoinedSnoc(s: Mdc, e: Entry)
    requires s != []
    ensures Joined(s + [e]) == Joined(s) + ", " + Render(e)
  {
    var t := s + [e];
    assert t[..|t| - 1] == s;
  }

  /** Printing two non-empty runs of entries is printing each and joining
      them with ", ". */
  lemma {:induction false} JoinedAppend(a: Mdc, b: Mdc)
    requires a != [] && b != []
    ensures Joined(a + b) == Joined(a) + ", " + Joined(b)
    decreases |b|
  {
    var init, last := b[..|b| - 1], b[|b| - 1];
    if init == [] {
      assert b == [last];
      JoinedSnoc(a, last);
    } else {
      assert b == init + [last];
      assert a + b == (a + init) + [last];
      var ja, ji, jl := Joined(a), Joined(init), Render(last);
      assert Joined(a + b) == Joined(a + init) + ", " + jl by {
        JoinedSnoc(a + init, last);
      }
      assert Joined(a + init) == ja + ", " + ji by {
        JoinedAppend(a, init);
      }
      assert Joined(b) == ji + ", " + jl by {
        JoinedSnoc(init, last);
      }
      SeparatorsRegroup(ja, ji, jl);
    }
  }

  lemma SeparatorsRegroup(x: string, y: string, z: string)
    ensures (x + ", " + y) + ", " + z == x + ", " + (y + ", " + z)
  {
  }

  /** The printed form starts with the first entry and ends with the last. */
  lemma {:induction false} JoinedEnds(mdc: Mdc)
    requires mdc != []
    ensures Render(mdc[0]) <= Joined(mdc)
    ensures var r := Render(mdc[|mdc| - 1]);
            |r| <= |Joined(mdc)| && Joined(mdc)[|Joined(mdc)| - |r|..] == r
    decreases |mdc|
  {
    if |mdc| > 1 {
      var init := mdc[..|mdc| - 1];
      JoinedEnds(init);
      assert init[0] == mdc[0];
      var p := Joined(init) + ", ";
      assert Render(mdc[0]) <= p;
    }
  }

  /** Stopping and starting with a key but no default leaves the default
      empty, whatever it was before. */
  method RestartWithoutDefault(c: MdcConverter, key: string)
    modifies c
    ensures c.key == Some(key) && c.defaultValue == "" && c.started
  {
    c.Stop();
    c.Start(Some(key), None);
  }
}
