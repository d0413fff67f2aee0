/**
 * The keyboard dispatch of jtop's curses loop: which page-model call, if
 * any, a key read with `getch()` leads to, and which key ends the loop.
 */
module Keys {

  /** The codes curses reports for the arrow keys (ncurses' KEY_LEFT and
      KEY_RIGHT, octal 0404 and 0405). */
  const KEY_LEFT: nat := 260
  const KEY_RIGHT: nat := 261

  /** What `getch()` returns: nothing before the timeout (-1 in curses),
      or the code of the key pressed. */
  datatype Key = NoKey | Pressed(code: nat)

  /** The calls the loop makes on the page model. */
  datatype PageCall = SetPage(index: int) | Increase | Decrease

  /** The outcome of one dispatch. */
  datatype Action = Call(call: PageCall) | Quit | Ignore

  /** Python's `ord` on a one-character string. */
  function Ord(c: char): nat {
    c as nat
  }

  /** Python's `str(n)` for a single decimal digit. */
  function DigitString(n: nat): string
    requires n < 10
  {
    [('0' as nat + n) as char]
  }

  /** `[ord(str(n)) for n in range(10)]`: the code of digit `n` sits at
      index `n`, and is `n` past the code of '0'. */
  function DigitCodes(): (r: seq<nat>)
    ensures |r| == 10
    ensures forall n :: 0 <= n < 10 ==> r[n] == Ord('0') + n
  {
    seq(10, n requires 0 <= n < 10 => Ord(DigitString(n)[0]))
  }

  /** The digit codes are the ten consecutive codes of '0' to '9'. */
  lemma DigitCodesRange(code: nat)
    ensures code in DigitCodes() <==> 48 <= code <= 57
  {
    if 48 <= code <= 57 {
      assert DigitCodes()[code - 48] == code;
    }
  }

  /** Python's `int(chr(code))` for the code of a decimal digit: the digit
      whose `str` has that code, so it undoes `ord(str(n))`. */
  function DigitValue(code: nat): (n: int)
    requires code in DigitCodes()
    ensures 0 <= n < 10 && Ord(DigitString(n)[0]) == code
  {
    DigitCodesRange(code);
    code - Ord('0')
  }

  /** The `if`/`elif` chain of the loop, tested in the source's order. */
  function Dispatch(key: Key): (a: Action)
    ensures a == Call(Decrease) <==> key == Pressed(KEY_LEFT)
    ensures a == Call(Increase) <==> key == Pressed(KEY_RIGHT)
    ensures (a.Call? && a.call.SetPage?) <==> (key.Pressed? && 48 <= key.code <= 57)
    ensures a.Call? && a.call.SetPage? ==> a.call.index == key.code - 48 && 0 <= a.call.index <= 9
    ensures a.Quit? <==> key == Pressed(113) || key == Pressed(81)
    ensures key.NoKey? ==> a.Ignore?
  {
    match key
    case NoKey => Ignore
    case Pressed(c) =>
      DigitCodesRange(c);
      if c == KEY_LEFT then Call(Decrease)
      else if c == KEY_RIGHT then Call(Increase)
      else if c in DigitCodes() then Call(SetPage(DigitValue(c)))
      else if c == Ord('q') || c == Ord('Q') then Quit
      else Ignore
  }

  /** Typing digit `n` asks for page `n`; nothing here compares `n` with
      the number of pages, so the digits past the last page reach the
      page model as they are. */
  lemma DigitSelectsPage(n: nat)
    requires n < 10
    ensures Dispatch(Pressed(Ord(DigitString(n)[0]))) == Call(SetPage(n))
  {
    assert DigitCodes()[n] == Ord(DigitString(n)[0]);
  }
}
