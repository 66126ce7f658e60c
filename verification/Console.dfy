/**
 `console_put_char` of src/common/text.c, which takes the reentrant console lock and at the
 end of a line calls itself while holding it.
 */
module Console {
  class Console {
    var owner: nat
    var cnt: nat
    var x: nat
    var y: nat
    ghost var printed: seq<(char, nat, nat)>
    const width: nat
    const height: nat

    constructor (width: nat, height: nat)
      requires width > 0 && height > 0
      ensures owner == 0 && cnt == 0 && Inside() && this.width == width && this.height == height
      ensures x == 0 && y == 0 && printed == []
    {
      owner, cnt, x, y := 0, 0, 0, 0;
      printed := [];
      this.width, this.height := width, height;
    }

    ghost predicate Inside()
      reads this
    {
      x < width && y < height
    }

    /** The lock as a caller with id `id` may find it: free, or held by itself.  The first
        context has id 0, which also stands for "free"; that does no harm to a single caller. */
    ghost predicate Available(id: nat)
      reads this
    {
      (owner == 0 && cnt == 0) || (owner == id && cnt > 0)
    }

    method Acquire(id: nat)
      requires Available(id)
      modifies this`owner, this`cnt
      ensures owner == id && cnt == old(cnt) + 1
    {
      if owner == id {
        cnt := cnt + 1;
      } else {
        owner := id;
        cnt := 1;
      }
    }

    method Release()
      requires cnt > 0
      modifies this`owner, this`cnt
      ensures cnt == old(cnt) - 1
      ensures owner == if old(cnt) == 1 then 0 else old(owner)
    {
      cnt := cnt - 1;
      if cnt == 0 {
        owner := 0;
      }
    }

    /** Prints at the cursor and moves it on, wrapping at the right edge and staying on the
        last line when the screen scrolls.  Whatever the nesting, the lock is back at its
        entry values. */
    method PutChar(id: nat, c: char)
      requires Available(id) && Inside()
      modifies this
      ensures owner == old(owner) && cnt == old(cnt)
      ensures Inside()
      ensures x == if c == '\n' || old(x) + 1 == width then 0 else old(x) + 1
      ensures y == if (c == '\n' || old(x) + 1 == width) && old(y) + 1 < height then old(y) + 1 else old(y)
      ensures printed == if c == '\n' then old(printed) else old(printed) + [(c, old(x), old(y))]
      decreases if c == '\n' then 0 else 1
    {
      Acquire(id);
      if c == '\n' {
        x := 0;
        if y < height - 1 {
          y := y + 1;
        }
        Release();
        return;
      }
      printed := printed + [(c, x, y)];
      if x < width - 1 {
        x := x + 1;
      } else {
        PutChar(id, '\n');
      }
      Release();
    }
  }
}
