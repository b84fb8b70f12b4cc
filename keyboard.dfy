/**
 The keyboard state of the viewer: six flags, set by a key press and cleared
 by a key release. Key names are matched after lower-casing, several names
 stand for one flag, and a key outside the table changes nothing.
 */
module Keyboard {

  datatype Option<T> = None | Some(value: T)

  /** The six flags. */
  datatype Flag = Up | Down | Left | Right | Q | E

  /** A snapshot of the six flags. */
  datatype KeyState = KeyState(up: bool, down: bool, left: bool, right: bool, q: bool, e: bool)

  const AllReleased := KeyState(false, false, false, false, false, false)

  function Get(s: KeyState, f: Flag): bool
  {
    match f
    case Up => s.up
    case Down => s.down
    case Left => s.left
    case Right => s.right
    case Q => s.q
    case E => s.e
  }

  /** `s` with flag `f` set to `v`. */
  function With(s: KeyState, f: Flag, v: bool): (r: KeyState)
    ensures Get(r, f) == v
    ensures forall g :: g != f ==> Get(r, g) == Get(s, g)
  {
    match f
    case Up => s.(up := v)
    case Down => s.(down := v)
    case Left => s.(left := v)
    case Right => s.(right := v)
    case Q => s.(q := v)
    case E => s.(e := v)
  }

  /** Lower-casing of one character; only the ASCII letters A-Z change. */
  function LowerChar(c: char): (r: char)
    ensures 'A' <= c <= 'Z' ==> 'a' <= r <= 'z' && r as int - 'a' as int == c as int - 'A' as int
    ensures !('A' <= c <= 'Z') ==> r == c
  {
    if 'A' <= c <= 'Z' then (c as int - 'A' as int + 'a' as int) as char else c
  }

  /** A string without the capitals A-Z. */
  predicate NoCapitals(s: string)
  {
    forall i :: 0 <= i < |s| ==> !('A' <= s[i] <= 'Z')
  }

  /**
   Lower-casing of a key name: the result has no capitals, and a name that has
   none is left as it is.
   */
  function ToLower(s: string): (r: string)
    ensures |r| == |s|
    ensures forall i :: 0 <= i < |s| ==> r[i] == LowerChar(s[i])
    ensures NoCapitals(r)
    ensures NoCapitals(s) ==> r == s
  {
    seq(|s|, i requires 0 <= i < |s| => LowerChar(s[i]))
  }

  /** The key names, in lower case, bound to each flag. */
  function Names(f: Flag): set<string>
  {
    match f
    case Up => {"arrowup", "w"}
    case Down => {"arrowdown", "s"}
    case Left => {"arrowleft", "a"}
    case Right => {"arrowright", "d"}
    case Q => {"q"}
    case E => {"e"}
  }

  /** The flag a lower-cased key name is bound to, if any: the one whose list holds it. */
  function Binding(name: string): (f: Option<Flag>)
    ensures forall g :: f == Some(g) <==> name in Names(g)
  {
    if name == "arrowup" || name == "w" then Some(Up)
    else if name == "arrowdown" || name == "s" then Some(Down)
    else if name == "arrowleft" || name == "a" then Some(Left)
    else if name == "arrowright" || name == "d" then Some(Right)
    else if name == "q" then Some(Q)
    else if name == "e" then Some(E)
    else None
  }

  /** The state after the key named `key` goes down: its flag, if it has one, is set. */
  function Press(s: KeyState, key: string): (r: KeyState)
    ensures forall g :: Get(r, g) == (ToLower(key) in Names(g) || Get(s, g))
  {
    match Binding(ToLower(key))
    case Some(f) => With(s, f, true)
    case None => s
  }

  /** The state after the key named `key` comes up: its flag, if it has one, is cleared. */
  function Release(s: KeyState, key: string): (r: KeyState)
    ensures forall g :: Get(r, g) == (ToLower(key) !in Names(g) && Get(s, g))
  {
    match Binding(ToLower(key))
    case Some(f) => With(s, f, false)
    case None => s
  }

  /** The binding table binds exactly the names listed for each flag. */
  lemma BindingMatchesNames(name: string, f: Flag)
    ensures Binding(name) == Some(f) <==> name in Names(f)
  {
    match f
    case Up =>
    case Down =>
    case Left =>
    case Right =>
    case Q =>
    case E =>
  }

  /** A name bound to no flag is in no flag's list. */
  lemma UnboundNameListedNowhere(name: string)
    ensures Binding(name) == None <==> forall f :: name !in Names(f)
  {
    if Binding(name) == None {
      forall f ensures name !in Names(f) {
        BindingMatchesNames(name, f);
      }
    } else {
      BindingMatchesNames(name, Binding(name).value);
    }
  }

  lemma ToLowerIdempotent(s: string)
    ensures ToLower(ToLower(s)) == ToLower(s)
  {
  }

  /** Matching ignores letter case: a key acts as its lower-cased name does. */
  lemma CaseInsensitive(s: KeyState, key: string)
    ensures Press(s, key) == Press(s, ToLower(key))
    ensures Release(s, key) == Release(s, ToLower(key))
  {
    ToLowerIdempotent(key);
  }

  /** Pressing a listed name, in any letter case, sets its flag and leaves the others alone. */
  lemma PressSetsFlag(s: KeyState, key: string, f: Flag)
    requires ToLower(key) in Names(f)
    ensures Get(Press(s, key), f)
    ensures forall g :: g != f ==> Get(Press(s, key), g) == Get(s, g)
  {
    BindingMatchesNames(ToLower(key), f);
  }

  /** Releasing a listed name, in any letter case, clears its flag and leaves the others alone. */
  lemma ReleaseClearsFlag(s: KeyState, key: string, f: Flag)
    requires ToLower(key) in Names(f)
    ensures !Get(Release(s, key), f)
    ensures forall g :: g != f ==> Get(Release(s, key), g) == Get(s, g)
  {
    BindingMatchesNames(ToLower(key), f);
  }

  /** A key event changes at most one flag: the one its name is bound to. */
  lemma AtMostOneFlagChanges(s: KeyState, key: string, g: Flag)
    ensures Get(Press(s, key), g) != Get(s, g) ==> ToLower(key) in Names(g)
    ensures Get(Release(s, key), g) != Get(s, g) ==> ToLower(key) in Names(g)
  {
    BindingMatchesNames(ToLower(key), g);
  }

  /** A key that is in no list changes nothing. */
  lemma UnknownKeyIgnored(s: KeyState, key: string)
    requires forall f :: ToLower(key) !in Names(f)
    ensures Press(s, key) == s
    ensures Release(s, key) == s
  {
    UnboundNameListedNowhere(ToLower(key));
  }

  /** Pressing the same key twice is the same as pressing it once. */
  lemma PressIdempotent(s: KeyState, key: string)
    ensures Press(Press(s, key), key) == Press(s, key)
  {
    match Binding(ToLower(key))
    case Some(f) =>
      var t := With(s, f, true);
      assert With(t, f, true) == t by {
        match f
        case Up =>
        case Down =>
        case Left =>
        case Right =>
        case Q =>
        case E =>
      }
    case None =>
  }

  /** Two names for one flag share its state: releasing either undoes pressing the other. */
  lemma AliasesShareState(s: KeyState, pressed: string, released: string, f: Flag)
    requires ToLower(pressed) in Names(f) && ToLower(released) in Names(f)
    ensures Release(Press(s, pressed), released) == With(s, f, false)
  {
    BindingMatchesNames(ToLower(pressed), f);
    BindingMatchesNames(ToLower(released), f);
    match f
    case Up =>
    case Down =>
    case Left =>
    case Right =>
    case Q =>
    case E =>
  }

  /** Pressing "a" and then releasing "ArrowLeft" leaves `left` false. */
  lemma PressAReleaseArrowLeft(s: KeyState)
    ensures !Release(Press(s, "a"), "ArrowLeft").left
  {
    assert ToLower("a") == "a";
    assert ToLower("ArrowLeft") == "arrowleft";
    AliasesShareState(s, "a", "ArrowLeft", Left);
  }

  /** "W" and "ArrowUp" both set `up`; "ARROWDOWN" and "s" both set `down`. */
  lemma NamesInAnyCase(s: KeyState)
    ensures Press(s, "W").up && Press(s, "ArrowUp").up
    ensures Press(s, "ARROWDOWN").down && Press(s, "s").down
  {
    assert ToLower("W") == "w";
    assert ToLower("ArrowUp") == "arrowup";
    assert ToLower("ARROWDOWN") == "arrowdown";
    assert ToLower("s") == "s";
  }

  /** The six flags of the viewer, updated in place by the two key handlers. */
  class UserInput {
    var up: bool
    var down: bool
    var left: bool
    var right: bool
    var q: bool
    var e: bool

    /** All flags start released. */
    constructor ()
      ensures Keys() == AllReleased
    {
      up, down, left, right, q, e := false, false, false, false, false, false;
    }

    /** A read of the current flags. */
    function Keys(): (k: KeyState)
      reads this
      ensures Get(k, Up) == up && Get(k, Down) == down && Get(k, Left) == left
      ensures Get(k, Right) == right && Get(k, Q) == q && Get(k, E) == e
    {
      KeyState(up, down, left, right, q, e)
    }

    /** The keydown handler. */
    method KeyDown(key: string)
      modifies this
      ensures Keys() == Press(old(Keys()), key)
    {
      var name := ToLower(key);
      if name == "arrowup" || name == "w" {
        up := true;
      } else if name == "arrowdown" || name == "s" {
        down := true;
      } else if name == "arrowleft" || name == "a" {
        left := true;
      } else if name == "arrowright" || name == "d" {
        right := true;
      } else if name == "q" {
        q := true;
      } else if name == "e" {
        e := true;
      }
    }

    /** The keyup handler. */
    method KeyUp(key: string)
      modifies this
      ensures Keys() == Release(old(Keys()), key)
    {
      var name := ToLower(key);
      if name == "arrowup" || name == "w" {
        up := false;
      } else if name == "arrowdown" || name == "s" {
        down := false;
      } else if name == "arrowleft" || name == "a" {
        left := false;
      } else if name == "arrowright" || name == "d" {
        right := false;
      } else if name == "q" {
        q := false;
      } else if name == "e" {
        e := false;
      }
    }
  }
}
