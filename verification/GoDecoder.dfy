/**
  The decoder in the form it has in the debugger: a dictionary and objects that
  its calls update in place (pwndbg/aglib/godbg.py:544-763).  Each method is
  proved to be the function of GoDecode or GoKnot with the same name.
 */
module GoDecoder {
  import opened GoDecode
  import opened GoKnot

  datatype Result = Returned(v: Val) | Raises(error: Error)

  class Decoder {
    const mem: Memory
    var cache: map<Addr, Val>
    var store: seq<Obj>

    constructor (mem: Memory)
      ensures this.mem == mem && St() == EMPTY
    {
      this.mem := mem;
      cache, store := map[], [];
    }

    ghost function St(): State
      reads this
    {
      State(cache, store)
    }

    method New(o: Obj) returns (v: Val)
      modifies this`store
      ensures (v, St()) == Alloc(old(St()), o)
    {
      v := Ref(|store|);
      store := store + [o];
    }

    method Inner(a: Addr) returns (v: Val)
      modifies this
      ensures (v, St()) == Decode(mem, a, old(St()))
      decreases mem.Keys - cache.Keys, 0, 0
    {
      if a in cache {
        return cache[a];
      }
      if a !in mem {
        return NoneV;
      }
      assert a in mem.Keys - cache.Keys;
      v := New(Backref(a));
      cache := cache[a := v];
      v := ComputeType(a);
      cache := cache[a := v];
    }

    method ComputeType(a: Addr) returns (v: Val)
      requires a in mem
      modifies this
      ensures (v, St()) == Compute(mem, a, old(St()))
      decreases mem.Keys - cache.Keys, 2, 0
    {
      match mem[a]
      case Simple(name) => v := New(Ty(BasicS(name), []));
      case Func(params) =>
        var _ := Each(params);
        v := New(Ty(BasicS("funcptr"), []));
      case Interface(methods) =>
        if methods == [] {
          v := New(Ty(BasicS("any"), []));
        } else {
          var _ := Each(methods);
          v := New(Ty(BasicS("interface"), []));
        }
      case Array(elem, len) =>
        v := Inner(elem);
        if !v.NoneV? {
          v := New(Ty(ArrayS(len), [v]));
        }
      case Slice(elem) =>
        v := Inner(elem);
        if !v.NoneV? {
          v := New(Ty(SliceS, [v]));
        }
      case Pointer(elem) =>
        v := Inner(elem);
        if !v.NoneV? {
          v := New(Ty(PointerS, [v]));
        }
      case Map(key, val) =>
        v := Inner(key);
        if v.NoneV? {
          return;
        }
        var w := Inner(val);
        if w.NoneV? {
          return NoneV;
        }
        v := New(MapO(v, w));
        v := New(Ty(PointerS, [v]));
      case Struct(fields, size, align) =>
        var vals := Each(FieldTypes(fields));
        v := New(Ty(StructShape(Sorted(fields), size, align), StructComps(fields, vals)));
      case Unsupported => v := NoneV;
    }

    /** The loops over parameters, methods and fields. */
    method Each(addrs: seq<Addr>) returns (vs: seq<Val>)
      modifies this
      ensures (vs, St()) == DecodeAll(mem, addrs, old(St()))
      decreases mem.Keys - cache.Keys, 1, |addrs|
    {
      vs := [];
      assert addrs[0..] == addrs && vs + DecodeAll(mem, addrs, St()).0 == DecodeAll(mem, addrs, St()).0;
      for i := 0 to |addrs|
        invariant Grows(old(St()), St())
        invariant |vs| == i
        invariant DecodeAll(mem, addrs, old(St())) == (vs + DecodeAll(mem, addrs[i..], St()).0, DecodeAll(mem, addrs[i..], St()).1)
      {
        assert addrs[i..][0] == addrs[i] && addrs[i..][1..] == addrs[i + 1..];
        ghost var rest := DecodeAll(mem, addrs[i..], St()).0;
        ghost var done := vs;
        var v := Inner(addrs[i]);
        vs := vs + [v];
        assert done + rest == vs + DecodeAll(mem, addrs[i + 1..], St()).0;
      }
      assert addrs[|addrs|..] == [] && vs + [] == vs;
    }

    /** Placeholder removal.  An exception leaves the store as it was rewritten up to then. */
    method RemoveBackrefs(v: Val, depth: nat) returns (res: Result)
      modifies this`store
      ensures match Remove(old(cache), old(store), v, depth)
              case Done(w, s) => res == Returned(w) && store == s
              case Raised(e, s) => res == Raises(e) && store == s
      decreases depth, 0
    {
      RemoveOne(cache, store, v, depth);
      hide Remove;
      hide RemoveAll;
      hide SetKey;
      hide SetVal;
      hide GetVal;
      hide SetComps;
      if !v.Ref? || v.r >= |store| {
        return Returned(v);
      }
      if depth == 0 {
        return Raises(RecursionLimit);
      }
      match store[v.r]
      case Backref(key) =>
        res := if key in cache then Returned(cache[key]) else Raises(MissingKey);
      case MapO(k, _) =>
        res := RemoveBackrefs(k, depth - 1);
        if res.Returned? {
          store := SetKey(store, v.r, res.v);
          res := RemoveBackrefs(GetVal(store, v.r), depth - 1);
          if res.Returned? {
            store := SetVal(store, v.r, res.v);
            res := Returned(v);
          }
        }
      case Ty(_, comps) =>
        var vs;
        res, vs := RemoveEach(comps, depth - 1);
        if res.Returned? {
          store := SetComps(store, v.r, vs);
          res := Returned(v);
        }
    }

    /** The components of one object, in order. */
    method RemoveEach(comps: seq<Val>, depth: nat) returns (res: Result, vs: seq<Val>)
      modifies this`store
      ensures match RemoveAll(old(cache), old(store), comps, depth)
              case DoneAll(ws, s) => res.Returned? && vs == ws && store == s
              case RaisedAll(e, s) => res == Raises(e) && store == s
      decreases depth, 1
    {
      hide Remove;
      vs := [];
      assert comps[0..] == comps;
      for i := 0 to |comps|
        invariant |vs| == i
        invariant match RemoveAll(old(cache), old(store), comps, depth)
                  case RaisedAll(e, s) => RemoveAll(old(cache), store, comps[i..], depth) == RaisedAll(e, s)
                  case DoneAll(ws, s) => ws[..i] == vs && RemoveAll(old(cache), store, comps[i..], depth) == DoneAll(ws[i..], s)
      {
        assert comps[i..][0] == comps[i] && comps[i..][1..] == comps[i + 1..];
        var one := RemoveBackrefs(comps[i], depth);
        if one.Raises? {
          return one, vs;
        }
        vs := vs + [one.v];
      }
      assert comps[|comps|..] == [] && vs[..|comps|] == vs;
      ghost var all := RemoveAll(old(cache), old(store), comps, depth);
      assert all.DoneAll? && all.vs[..|comps|] == all.vs && all.store == store;
      res := Returned(NoneV);
    }

    /** decode_runtime_type: placeholders stay if the caller asks for them. */
    method DecodeRuntimeType(a: Addr, keepBackrefs: bool, depth: nat) returns (res: Result)
      requires St() == EMPTY
      modifies this
      ensures var (v, st) := Decode(mem, a, EMPTY);
              if keepBackrefs then res == Returned(v) && St() == st
              else
                match Remove(st.cache, st.store, v, depth)
                case Done(w, s) => res == Returned(w) && store == s
                case Raised(e, s) => res == Raises(e) && store == s
    {
      var v := Inner(a);
      if keepBackrefs {
        return Returned(v);
      }
      res := RemoveBackrefs(v, depth);
    }
  }
}
