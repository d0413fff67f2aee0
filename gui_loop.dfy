/**
 * The control flow of jtop's `gui` loop: one `set(page)` call on the page
 * model before the loop, then one key read and at most one page-model call
 * per round, until `q` or `Q` is read. Drawing is not modelled, and the
 * page model is kept abstract: it only records the calls it receives.
 */
module GuiLoop {
  import opened Keys

  /** jtop's `--page` default. */
  const DEFAULT_PAGE: int := 1

  /** The page model, seen from the loop: whatever it does with a call
      (clamping, selecting) is not part of this model, so it records the
      calls in order. */
  class PageModel {
    var calls: seq<PageCall>

    constructor ()
      ensures calls == []
    {
      calls := [];
    }

    /** `pages.set(n)`. */
    method Set(n: int)
      modifies this
      ensures calls == old(calls) + [SetPage(n)]
    {
      calls := calls + [SetPage(n)];
    }

    /** `pages.increase()`. */
    method Increase()
      modifies this
      ensures calls == old(calls) + [PageCall.Increase]
    {
      calls := calls + [PageCall.Increase];
    }

    /** `pages.decrease()`. */
    method Decrease()
      modifies this
      ensures calls == old(calls) + [PageCall.Decrease]
    {
      calls := calls + [PageCall.Decrease];
    }
  }

  predicate IsQuit(key: Key) {
    Dispatch(key).Quit?
  }

  predicate HasQuit(keys: seq<Key>) {
    exists j :: 0 <= j < |keys| && IsQuit(keys[j])
  }

  /** How many keys the loop reads from `keys`: up to and including the
      first quit key, or all of them when there is none. */
  function KeysRead(keys: seq<Key>): (n: nat)
    ensures n <= |keys|
    ensures forall j :: 0 <= j < n - 1 ==> !IsQuit(keys[j])
    ensures HasQuit(keys) ==> 0 < n && IsQuit(keys[n - 1])
    ensures !HasQuit(keys) ==> n == |keys|
  {
    if keys == [] then 0
    else if IsQuit(keys[0]) then 1
    else
      assert HasQuit(keys) ==> HasQuit(keys[1..]) by {
        if HasQuit(keys) {
          var j :| 0 <= j < |keys| && IsQuit(keys[j]);
          assert keys[1..][j - 1] == keys[j];
        }
      }
      1 + KeysRead(keys[1..])
  }

  /** The page-model calls the dispatches make while reading `keys`: each
      one is the call of some key the loop reads. */
  function Calls(keys: seq<Key>): (r: seq<PageCall>)
    ensures forall j :: 0 <= j < |r| ==>
              exists i :: 0 <= i < KeysRead(keys) && Dispatch(keys[i]) == Call(r[j])
  {
    if keys == [] then []
    else
      match Dispatch(keys[0])
      case Quit => []
      case Ignore => Calls(keys[1..])
      case Call(c) => [c] + Calls(keys[1..])
  }

  /** The whole trace of one run of the loop started on `page`: the
      initial selection, then at most one call per key read. */
  function Trace(page: int, keys: seq<Key>): (r: seq<PageCall>)
    ensures 0 < |r| <= 1 + KeysRead(keys) && r[0] == SetPage(page)
  {
    CallsBound(keys);
    [SetPage(page)] + Calls(keys)
  }

  /** At most one page-model call per key read. */
  lemma {:induction false} CallsBound(keys: seq<Key>)
    ensures |Calls(keys)| <= KeysRead(keys)
  {
    if keys != [] && !IsQuit(keys[0]) {
      CallsBound(keys[1..]);
    }
  }

  /** Keys before any quit key act one after another: the calls for
      `a + b` are those for `a` followed by those for `b`, and the loop
      reads all of `a` before it reads from `b`. */
  lemma {:induction false} CallsAppend(a: seq<Key>, b: seq<Key>)
    requires !HasQuit(a)
    ensures Calls(a + b) == Calls(a) + Calls(b)
    ensures KeysRead(a + b) == |a| + KeysRead(b)
  {
    if a == [] {
      assert a + b == b;
    } else {
      assert (a + b)[0] == a[0];
      assert (a + b)[1..] == a[1..] + b;
      assert !IsQuit(a[0]);
      assert !HasQuit(a[1..]) by {
        forall j | 0 <= j < |a[1..]| ensures !IsQuit(a[1..][j]) {
          assert a[1..][j] == a[j + 1];
        }
      }
      CallsAppend(a[1..], b);
    }
  }

  /** Keys after the first quit key are never read: whatever follows a
      sequence that holds a quit key changes neither the calls nor the
      number of keys read. */
  lemma {:induction false} QuitEndsReading(keys: seq<Key>, rest: seq<Key>)
    requires HasQuit(keys)
    ensures Calls(keys + rest) == Calls(keys)
    ensures KeysRead(keys + rest) == KeysRead(keys)
  {
    assert (keys + rest)[0] == keys[0];
    if !IsQuit(keys[0]) {
      assert (keys + rest)[1..] == keys[1..] + rest;
      var j :| 0 <= j < |keys| && IsQuit(keys[j]);
      assert keys[1..][j - 1] == keys[j];
      QuitEndsReading(keys[1..], rest);
    }
  }

  /** Keys with no meaning to the loop make no call. */
  lemma {:induction false} IgnoredKeysCallNothing(idle: seq<Key>)
    requires forall j :: 0 <= j < |idle| ==> Dispatch(idle[j]).Ignore?
    ensures Calls(idle) == []
  {
    if idle != [] {
      assert Dispatch(idle[0]).Ignore?;
      IgnoredKeysCallNothing(idle[1..]);
    }
  }

  /** A key that times out, or any other key with no meaning to the loop,
      makes no call and does not end the loop; so running out of keys is
      the same, for the page model, as waiting forever. */
  lemma IgnoredKeysChangeNothing(keys: seq<Key>, idle: seq<Key>)
    requires forall j :: 0 <= j < |idle| ==> Dispatch(idle[j]).Ignore?
    ensures Calls(keys + idle) == Calls(keys)
  {
    if HasQuit(keys) {
      QuitEndsReading(keys, idle);
    } else {
      CallsAppend(keys, idle);
      IgnoredKeysCallNothing(idle);
    }
  }

  /** The calls for one key read: its own call, if the dispatch has one. */
  lemma CallsOfKey(k: Key)
    ensures Calls([k]) == if Dispatch(k).Call? then [Dispatch(k).call] else []
  {
    assert [k][1..] == [];
  }

  /** One more key read before any quit key: its call, if any, is added
      to the calls so far. */
  lemma ReadOneMore(keys: seq<Key>, read: nat)
    requires read < |keys| && !HasQuit(keys[..read])
    ensures Calls(keys[..read + 1])
            == Calls(keys[..read]) + if Dispatch(keys[read]).Call? then [Dispatch(keys[read]).call] else []
    ensures !IsQuit(keys[read]) ==> !HasQuit(keys[..read + 1])
  {
    assert keys[..read + 1] == keys[..read] + [keys[read]];
    CallsAppend(keys[..read], [keys[read]]);
    CallsOfKey(keys[read]);
    if !IsQuit(keys[read]) {
      var next := keys[..read + 1];
      forall j | 0 <= j < |next| ensures !IsQuit(next[j]) {
        if j < read {
          assert next[j] == keys[..read][j];
        }
      }
    }
  }

  /** When the loop stops at a quit key, what it read is all that counts. */
  lemma StoppedAtQuit(keys: seq<Key>, read: nat)
    requires 0 < read <= |keys| && !HasQuit(keys[..read - 1]) && IsQuit(keys[read - 1])
    ensures Calls(keys) == Calls(keys[..read - 1])
    ensures KeysRead(keys) == read
    ensures HasQuit(keys)
  {
    var pre := keys[..read - 1];
    assert keys == pre + keys[read - 1..];
    assert keys[read - 1..][0] == keys[read - 1];
    CallsAppend(pre, keys[read - 1..]);
  }

  /** The `gui` loop over the keys `getch()` returns, ending at the first
      `q` or `Q` or when the keys run out. Returns how many keys were read
      and whether the loop left by the quit key. */
  method Gui(pages: PageModel, page: int, keys: seq<Key>) returns (read: nat, quit: bool)
    modifies pages
    ensures pages.calls == old(pages.calls) + Trace(page, keys)
    ensures read == KeysRead(keys)
    ensures quit <==> HasQuit(keys)
  {
    pages.Set(page);
    read, quit := 0, false;
    while read < |keys|
      invariant read <= |keys|
      invariant !HasQuit(keys[..read])
      invariant pages.calls == old(pages.calls) + [SetPage(page)] + Calls(keys[..read])
      decreases |keys| - read
    {
      var key := keys[read];
      ReadOneMore(keys, read);
      read := read + 1;
      match Dispatch(key)
      case Call(Decrease) =>
        pages.Decrease();
      case Call(Increase) =>
        pages.Increase();
      case Call(SetPage(n)) =>
        pages.Set(n);
      case Quit =>
        quit := true;
        break;
      case Ignore =>
    }
    if quit {
      StoppedAtQuit(keys, read);
    } else {
      assert keys[..read] == keys;
    }
  }

  /** jtop's three pages, started on the default page 1 and fed left, left, right, '2'
      and 'q': the trace is the initial selection and then one call per
      key, and the key after 'q' is never read. */
  lemma ExampleSession()
    ensures Trace(DEFAULT_PAGE, [Pressed(KEY_LEFT), Pressed(KEY_LEFT), Pressed(KEY_RIGHT),
                      Pressed(50), Pressed(113), Pressed(KEY_RIGHT)])
            == [SetPage(1), Decrease, Decrease, Increase, SetPage(2)]
  {
    var keys := [Pressed(KEY_LEFT), Pressed(KEY_LEFT), Pressed(KEY_RIGHT),
                 Pressed(50), Pressed(113), Pressed(KEY_RIGHT)];
    assert Dispatch(Pressed(50)) == Call(SetPage(2));
    assert Dispatch(Pressed(113)) == Quit;
    assert Calls(keys[4..]) == [];
    assert Calls(keys[3..]) == [SetPage(2)];
    assert Calls(keys[2..]) == [PageCall.Increase, SetPage(2)];
    assert Calls(keys[1..]) == [PageCall.Decrease, PageCall.Increase, SetPage(2)];
  }
}
