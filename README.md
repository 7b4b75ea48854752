# Topshelf logging facade, modelled in Dafny

This project models `Topshelf.Logging.Logger`, the static logging facade of Topshelf. The facade has two parts:

- **The backend slot.** One process-wide, nullable reference to the active `ILogger` backend.
  - `Current` creates a default `TraceLogger` on first use.
  - `Get` asks the current backend for a `Log` named after a type.
  - `UseLogger` shuts the old backend down and installs another one, which may be null.
  - `Shutdown` shuts the backend down and empties the slot.
- **The type-name formatter.** `GetCleanTypeName` turns a type into a readable logger name such as `N.Outer+Inner` or `N.List<T>`. It works recursively, appending to one shared `StringBuilder`.

Files:

- `Wrappers.dfy`: the `Option` type. It stands in for a nullable namespace string.
- `TypeNames.dfy`: the formatter.
  - `TypeDesc` replaces `System.Type`. It holds exactly the reflection members the code reads: `IsGenericParameter`, `Namespace`, `DeclaringType`, `IsGenericType`, `GetGenericTypeDefinition().Name`, `GetGenericArguments()` and `Name`.
  - `Format(t, scope)` is the specification: the text the recursive overload appends for `t` when the enclosing call passes namespace `scope`.
  - `AppendCleanTypeName` is the recursive builder overload. It takes a `seq<char>` accumulator and runs the same `for` loop over the arguments as the code. It is proved to append exactly `Format(t, scope)`.
- `Logging.dfy`: the facade.
  - Class `Logger` holds the static field `_logger` as `logger: Backend?`, so null means an empty slot.
  - A ghost trace `shutdownCalls` records every `ILogger.Shutdown` call the facade makes.
  - Backends are objects of class `Backend`, so "a new `TraceLogger`" is a `fresh` object.
  - Six client methods at the end of the file combine several calls and prove the lifecycle properties.

Each generic argument is formatted with the generic type's own namespace as its scope (Logger.cs:132), so an argument from that namespace has no prefix: `List<T>` with both in `N` prints as `N.List<T>`, while an argument from another namespace keeps its own `ns.`. `TypeNames.ArgumentPrefix` proves the rule in general, and `TypeNames.GenericSameNamespaceExample` checks the `N.List<T>` case.

## Model

| member | source | states |
|---|---|---|
| TypeNames.IndexOf | src/Topshelf/Logging/Logger.cs:117 | `string.IndexOf(char)`: -1 exactly when the character does not occur; otherwise an index holding that character with no earlier occurrence |
| TypeNames.StripArity | src/Topshelf/Logging/Logger.cs:115-119 | the emitted generic name is always a prefix of the definition name. It is left whole iff the name has no backtick or starts with one. Otherwise it is cut just before the first backtick, which lies at a positive index |
| TypeNames.AppendCleanTypeName | src/Topshelf/Logging/Logger.cs:92-141 | the recursive `StringBuilder` overload appends exactly `Format(t, scope)` to the builder. It returns the whole builder, or `""` for a generic parameter (which then appends nothing) |
| TypeNames.GetCleanTypeName | src/Topshelf/Logging/Logger.cs:75-78 | a fresh builder with a null scope yields exactly `Format(t, None)` |
| TypeNames.JoinSnoc | src/Topshelf/Logging/Logger.cs:125-133 | each loop step adds one argument: a `,` goes before every argument except the first, so there are no spaces and no trailing comma |
| TypeNames.JoinOfEmpties | src/Topshelf/Logging/Logger.cs:94-95 | joining n empty names leaves exactly n-1 commas |
| TypeNames.OpenGenericArgumentList | src/Topshelf/Logging/Logger.cs:94-95 | when every argument is a generic parameter, the argument list is only its separators: `<>` for zero or one parameter, `<,>` for two, and n-1 commas for n parameters |
| TypeNames.ScopeDecidesOnlyOwnPrefix | src/Topshelf/Logging/Logger.cs:97-105 | `ns.` is emitted iff the namespace is non-null and differs from the scope. Apart from that prefix, the name does not depend on the scope |
| TypeNames.TopLevelShowsNamespace | src/Topshelf/Logging/Logger.cs:77 | at the top level the scope is null, so a type with a namespace always starts with `ns.` |
| TypeNames.ArgumentPrefix | src/Topshelf/Logging/Logger.cs:132 | a generic argument in its generic's namespace is printed without a prefix. An argument from another namespace keeps its own `ns.` |
| TypeNames.NestedChainInScope | src/Topshelf/Logging/Logger.cs:107-111 | inside its own namespace, a chain of plain nested types prints as `Outer+...+Inner`, with no namespace repeated at any level |
| TypeNames.NestedChainAtTopLevel | src/Topshelf/Logging/Logger.cs:97-111 | at the top level the same chain prints as `n.Outer+...+Inner`: the nested type's own prefix comes first, then the declaring types |
| TypeNames.PlainAndNestedExamples | src/Topshelf/Logging/Logger.cs:94-138 | worked cases: `N.T`, `N.Outer+Inner`, and `""` for a generic parameter |
| TypeNames.GenericOfSameNamespace | src/Topshelf/Logging/Logger.cs:113-135 | a generic type in namespace `n` constructed with one plain type `a` from `n` prints as `n.` + stripped name + `<a>`: the argument carries no prefix |
| TypeNames.GenericSameNamespaceExample | src/Topshelf/Logging/Logger.cs:113-135 | worked case: ``List`1`` in `N` with argument `T` from `N` prints as `N.List<T>` |
| Logging.Logger.constructor | src/Topshelf/Logging/Logger.cs:20-21 | at process start the slot is empty and nothing has been shut down |
| Logging.Logger.CreateTraceLogger | src/Topshelf/Logging/Logger.cs:34-40 | installs a newly allocated `TraceLogger` and returns it. No backend is shut down |
| Logging.Logger.Current | src/Topshelf/Logging/Logger.cs:23-32 | never null. Returns the installed backend unchanged, or else a fresh `TraceLogger` that is now installed. Never shuts anything down |
| Logging.Logger.GetByName | src/Topshelf/Logging/Logger.cs:53-56 | the log comes from the backend `Current` yields, under exactly the given name |
| Logging.Logger.GetByType | src/Topshelf/Logging/Logger.cs:48-51 | routing: the name that reaches the backend is exactly the formatter's `Format(t, None)`, and the backend is `Current`'s |
| Logging.Logger.UseLogger | src/Topshelf/Logging/Logger.cs:58-68 | the previously installed backend, if any, is shut down exactly once and no other backend is. Afterwards the slot holds exactly the argument, which may be null |
| Logging.Logger.Shutdown | src/Topshelf/Logging/Logger.cs:80-90 | with a backend installed, it is shut down once and the slot is emptied. With the slot empty, nothing changes and nothing is called |
| Logging.CurrentIsStable | src/Topshelf/Logging/Logger.cs:23-40 | lazy initialisation is idempotent: two `Current` calls in a row return the same backend |
| Logging.ShutdownTwice | src/Topshelf/Logging/Logger.cs:80-90 | two `Shutdown` calls in a row equal one |
| Logging.UseLoggerThenGet | src/Topshelf/Logging/Logger.cs:48-68 | after `UseLogger(b)` the next `Get` is served by `b`, and the earlier backend was shut down exactly once |
| Logging.ShutdownThenGet | src/Topshelf/Logging/Logger.cs:23-40 | after `Shutdown`, the next `Get` creates a new default `TraceLogger`, distinct from the backend that was shut down |

| Logging.UseNullThenGet | src/Topshelf/Logging/Logger.cs:23-68 | after `UseLogger(null)` the old backend was shut down exactly once and the next `Get` creates a fresh `TraceLogger`, distinct from the replaced backend |
| Logging.InstallSuppliedLogger | src/Topshelf/Logging/Logger.cs:48-68 | an application-built backend, once installed, serves the next `Get`: no default `TraceLogger` is created while it is installed |

## Left out

- The `lock (_locker)` blocks: mutual exclusion between threads is not modelled. Each facade operation is one atomic sequential step.
- `Get<T>()` and `GetCleanTypeName<T>()`: they only apply `typeof(T)` and forward to the `Type` overloads, which are modelled. The `where T : class` constraint is type-system plumbing.
- `ILogger.Get`, `Log` and `TraceLogger` internals are not part of this model. A backend is an opaque identity, and the log it returns is identified only by its backend and its name. Message emission is not modelled.
- Exceptions raised by a supplied backend's `Shutdown`: the code neither catches nor defines them, so every shutdown is modelled as returning normally.
- .NET reflection is replaced by the `TypeDesc` descriptor. CLR facts the descriptor does not enforce are not modelled. For example, a nested type of a generic type also carries its outer type's generic arguments, and a CLR type is never both a generic parameter and a generic type.
- Overloaded names: Dafny has no overloading, so `Get(string)` and `Get(Type)` appear as `GetByName` and `GetByType`. For the same reason the `StringBuilder` overload of `GetCleanTypeName` is named `AppendCleanTypeName`.
