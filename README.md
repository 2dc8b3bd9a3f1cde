# test_publish greeter in Dafny

The `test_publish` package exposes one operation, `hello(name="World")`. It
returns the greeting `"Hello, " + name + "!"`. For an exact `str`, the name is
inserted exactly as given: it is not trimmed, escaped or checked. This
project models that operation as pure Dafny functions in module `Greeter` (`greeter.dfy`). A small
`Wrappers` module (`wrappers.dfy`) holds the `Option` type that stands for the
optional argument.

- `Greeter.Hello(name)` is a call with an explicit name.
- `Greeter.Greet(Option<string>)` is the call with the default parameter.
  `None` means the argument was left out, and then `DefaultName` ("World") is
  used.
- `Greeter.HelloDefault()` is the call with no argument.
- `Greeter.NameOf` is the partner of `Hello`. It reads the name back out of a
  greeting and returns `None` for any string that is not a greeting.
  `Greeter.IsGreeting` says which strings those are.

Python's `str` is modelled as Dafny's `string`, a sequence of Unicode scalar
values. Encoding is not modelled.

## Model

| member | source | states |
|---|---|---|
| Greeter.Hello | src/test_publish/__init__.py:22 | the greeting is `|name| + 8` characters long, starts with "Hello, ", ends with "!", and has the name, unchanged, between the two |
| Greeter.Greet | src/test_publish/__init__.py:12-22 | a given name is greeted as given; with the argument left out, the name greeted is "World" |
| Greeter.HelloDefault | src/test_publish/__init__.py:12 | the call with no argument returns "Hello, World!" |
| Greeter.NameOf | src/test_publish/__init__.py:22 | returns a name exactly when the string starts with "Hello, " and ends with "!"; greeting the recovered name rebuilds the input |
| Greeter.HelloIsGreeting | src/test_publish/__init__.py:22 | every result of `hello` has the fixed prefix and suffix |
| Greeter.NameOfHello | src/test_publish/__init__.py:22 | round trip: the name can always be read back from its greeting |
| Greeter.GreetingIffInRange | src/test_publish/__init__.py:22 | a string has the greeting's prefix and suffix if and only if some name produces it |
| Greeter.HelloInjective | src/test_publish/__init__.py:22 | two greetings are equal if and only if their names are equal |
| Greeter.HelloVerbatim | src/test_publish/__init__.py:22 | character `i` of the name is character `7 + i` of the greeting |
| Greeter.HelloExamples | tests/test_hello.py:10-20 | `hello()` is "Hello, World!", `hello("Python")` is "Hello, Python!", `hello("")` is "Hello, !" |

`hello` is a pure function, so calling it twice with the same input always
gives the same result. In Dafny this holds for every function by
construction, so no separate lemma states it.

## Left out

- `__version__` and `__all__` (src/test_publish/__init__.py:7,9): packaging metadata with no behaviour.
- Arguments that are not exactly `str`, including `str` subclasses that override `__format__`: the type hint is not enforced at runtime, and the f-string formats such an object with its own `__format__` method. That is foreign code, so `name` is always a `string` here.
- Python strings that hold lone surrogate code points: Dafny's `char` cannot hold them.
- The pytest harness in tests/test_hello.py: only its three assertions are kept, as the lemma `Greeter.HelloExamples`.
