# Verified models of DJGPP's algorithms

This project models the parts of DJGPP whose correctness depends on more than one
function at a time, and proves what each of them is for. One `.dfy` file holds one
component; `dafny verify dfyconfig.toml` checks them all.

- `Bits`, `Doubles`: 32-bit words with their bitwise operators and wrap-around; IEEE 754 doubles as two words, with their value as an integer multiple of 2^-1074.
- `Fmod`, `Remainder`: `__ieee754_fmod` and `__ieee754_remainder`, proved against section 7.12.10.1 of ISO/IEC 9899:1999 and section 5.3.1 of IEEE 754-2008.
- `DxeGen`, `DxeImage`, `DxeFormat`: what `dxe3gen` writes, how it is laid out in a file, and what the loader and the resolver make of it.
- `DxeMeaning`, `DxeBytes`: what that has to be, symbol by symbol, relocation by relocation and byte by byte, in terms of places alone.
- `DxeWhole`: the three DXE3 tools together, from an object to the loaded section.
- `DxeChain`, `DxeOpening`, `DxeLookup`, `DxeLoader`: `dlopen`, `dlclose`, `_closeall` and `dlsym` over a chain of reference-counted modules; what opening should do, as a function, which files it opens, and which address a symbol gets.
- `Memory`: `malloc`, which may fail.
- `Strings`, `DxeRes`: `strcmp`; the resolver `dxe3res`, from its dependency closure to the table it writes.
- `DjasmCode`, `DjasmSymbols`, `DjasmBinding`, `DjasmAssembly`: djasm's symbol table and patch lists; whole assemblies against an assembler that knows every binding in advance.
- `DjasmBits`, `DjasmModrm`, `DjasmOperand`, `DjasmLater`: djasm's memory operands, from their terms to their bytes and to the symbols defined after them, read back by sections 2.1.3 and 2.1.5 of the Intel 64 and IA-32 Architectures Software Developer's Manual, volume 2A.
- `MkdocShape`, `MkdocTree`: mkdoc's threaded search tree.
- `Redirect`: the debugger's swapping of the standard handles.
- `Mcount`: the call-edge table behind `-pg`.
- `CommandLine`, `ArgTree`, `Proxy`: splitting a command line, the argument tree, and the `!proxy` hand-over of an argument list through DOS memory.

How the source's terms appear here:

- Code that changes state is a class or a method over an array, with the source's loops.
  A specification function says what each method computes, and lemmas say what that means.
- One C function is sometimes several methods, one for each of its branches or loops; the
  comments give the lines.
- Integers are unbounded. Where C's `int`, `unsigned` or `short` can wrap around or is cut
  off, the model says so (`S32`, `U32`, `% 0x1_0000`).
- A char pointer that walks over a table is the rest of the bytes from it on.
- `malloc` may fail wherever the source tests for it (`Memory.RunsOut`), except as noted
  below; that it never does is an input. Files, search paths, addresses and resolvers are
  parameters.

Five promises are false of the code as it stands, and the conditions under which they hold
are proved as equivalences:

- A scaled index without a base is encoded as the operand asked for exactly if its
  displacement is not known or not small (`DjasmModrm.Operand.EncodeIndex`;
  `ScaledAloneFails` is the shortest instance).
- An operand of 16-bit registers is encoded as asked for exactly if it asks for none of them
  twice: `[bx+bx]` becomes `[bx]` without complaint (`DjasmOperand.MeansSums`; `TwiceFails`).
- A patched one-byte field costs as many range errors as a direct one exactly if the
  condition `CostsTheSame` holds, which an offset from -128 to 127 always meets
  (`DjasmAssembly.ErrorsAgree`; `FarOffsetDiffers` shows an offset of 200).
- A quoted argument is taken back by `parse_arg` exactly if it does not end in a backslash
  (`CommandLine.QuotedBack`).
- The name of the program in CMDLINE is skipped exactly if it is not in quotes
  (`Proxy.NameSkipped`; `QuotedNameStays` shows where a quoted one ends up).

## Model

| member | source | states |
|---|---|---|
| `Fmod.Fmod` | src/libm/math/e_fmod.c:31-138 | for finite x and finite nonzero y the result is x - n*y for an integer n, has the sign of x and is smaller than y; x itself comes back for infinite y; the exceptional quotient exactly for the other operands |
| `Fmod.RemainderDetermined` | src/libm/math/e_fmod.c:14-18 | that requirement has exactly one solution, the remainder of the magnitudes under the sign of x, and its n is the quotient truncated toward zero |
| `Fmod.Ilogb` | src/libm/math/e_fmod.c:56-72 | the exponent of every nonzero finite magnitude, by bit counting for subnormal ones: the one that makes its significand normal |
| `Fmod.Align` | src/libm/math/e_fmod.c:74-98 | a normal or subnormal operand becomes a significand of 53 bits that stands for the same magnitude |
| `Fmod.SubtractWords` | src/libm/math/e_fmod.c:103-103 | two-word subtraction with borrow is subtraction of 64-bit numbers, the sign in the high word |
| `Fmod.DoubleWords` | src/libm/math/e_fmod.c:104-104 | two-word doubling with carry is doubling, without overflow |
| `Fmod.FixedPoint` | src/libm/math/e_fmod.c:100-112 | shift and subtract leave exactly the remainder of x*2^n by y |
| `Fmod.RemainderStandsFor` | src/libm/math/e_fmod.c:100-112 | the remainder of the aligned significands stands for the remainder of the magnitudes, on either side of the subnormal range |
| `Fmod.Repack` | src/libm/math/e_fmod.c:114-137 | the stored result, normal or subnormal, has exactly the magnitude the words stood for |
| `Fmod.PackSubnormal` | src/libm/math/e_fmod.c:124-136 | the right shifts of a subnormal result lose no set bit, in each of their three forms |
| `Fmod.Exceptional` | src/libm/math/e_fmod.c:46-49 | the bit test is true exactly for x not finite, y NaN or y zero |
| `Fmod.Reduce` | src/libm/math/e_fmod.c:56-137 | with y smaller than x: the remainder of the magnitudes under the sign of x |
| `DoubleArithmetic.DifferenceFits` | src/libm/math/e_remainder.c:63-74 | the difference of two magnitudes within a factor of two of each other needs no rounding |
| `DoubleArithmetic.RoundExact` | src/libm/math/e_remainder.c:63-74 | rounding to nearest-even returns every representable number unchanged |
| `Remainder.Remainder` | src/libm/math/e_remainder.c:35-78 | the result is x - n*p with n the integer nearest x/p, even when two are, and zero keeps the sign of x; every sum, difference and half on the way is exact |
| `Remainder.RemainderUnique` | src/libm/math/e_remainder.c:13-19 | there is only one such result |
| `Remainder.ReduceByTwice` | src/libm/math/e_remainder.c:59-59 | the first reduction leaves a magnitude below 2\|p\|, congruent modulo 2p, also where 2p would overflow |
| `Remainder.CentreTiny` | src/libm/math/e_remainder.c:63-67 | for small p the comparisons by doubling and the subtractions give the centred remainder exactly |
| `Remainder.CentreLarge` | src/libm/math/e_remainder.c:68-74 | for larger p so do those with half of p |
| `DxeGen.WriteDxe` | src/dxe/dxe3gen.c:995-1291 | the module written, the number of undefined symbols reported, or the fatal error with the name of the first symbol that has too many references, is what the symbol and relocation tables call for |
| `DxeGen.Scan` | src/dxe/dxe3gen.c:998-1193 | after the scan the tables hold what the symbols call for, and exactly the relocations of undefined symbols are marked |
| `DxeGen.ScanSymbol` | src/dxe/dxe3gen.c:1014-1192 | the same for one symbol, whatever its class and section |
| `DxeGen.CountReferences` | src/dxe/dxe3gen.c:1044-1054 | the counts are the numbers of relative and absolute references to the symbol |
| `DxeGen.TakeReferences` | src/dxe/dxe3gen.c:1099-1116 | relative references are stored in order, absolute ones in reverse, and all of them are marked, nothing else |
| `DxeGen.LeftOver` | src/dxe/dxe3gen.c:1203-1210 | the header's count is the number of relocations left to write: the absolute ones that name no undefined symbol |
| `DxeGen.SameFixes` | src/dxe/dxe3gen.c:1038-1116 | the unresolved table and the relocations left over together ask for each fix of the COFF relocations exactly once |
| `DxeGen.LoadIsRelocation` | src/dxe/dxe3gen.c:1280-1285 | loading what was generated, at any base, changes each relocated field as the COFF relocation says, once, and no other byte |
| `DxeGen.ModuleWellFormed` | src/dxe/dxe3gen.c:1229-1285 | what is written meets everything the loader relies on |
| `DxeMeaning.ExpectedMeans` | src/dxe/dxe3gen.c:998-1291 | the outcome of write_dxe in terms of the symbol table: the exports are, in order and once each, the public symbols that are not _init, _fini or reserved, start with no excluded prefix and, if prefixes are given, with one of them; init and fini are the last symbols of those names, the data end at the least .bss; the number of needed symbols is the error count, and the first with more than 65535 references of a kind is the one named |
| `DxeMeaning.ModuleMeans` | src/dxe/dxe3gen.c:1038-1171 | the same for the module alone, with the entries of the unresolved table and the relocations left |
| `DxeMeaning.EntryMeans` | src/dxe/dxe3gen.c:1079-1116 | an entry for exactly the symbols without a section that a relocation names, with the sites of its relative relocations in order and of its absolute ones in reverse |
| `DxeMeaning.FixedMeans` | src/libc/dxe/dlopen.c:299-333 | after linking, every relative relocation of an outside symbol reaches its target from the end of its field, every absolute one has gained the target, every other absolute one the base, and no byte outside these fields has changed |
| `DxeMeaning.WalkUnique` | src/dxe/dxe3gen.c:998-1013 | the scan stops at the symbols and skips their auxiliary entries |
| `DxeImage.EditsFix` | src/libc/dxe/dlopen.c:309-333 | fixes of fields that do not meet each act on the original value, in whatever order |
| `DxeImage.FixedUnique` | src/libc/dxe/dlopen.c:309-333 | each fixed field and every other byte being determined, the section is |
| `DxeImage.Link` | src/libc/dxe/dlopen.c:299-333 | the section with every reference to a known symbol fixed, relocated by its own address if all are known, and the list of unknown names |
| `DxeImage.LinkMeans` | src/libc/dxe/dlopen.c:299-333 | of a module whose fields do not meet, once linked: base + site + 4 + the number in a relative field is the target, modulo 2^32, the absolute fields have gained their targets, the relocations the base, and nothing else has changed |
| `DxeImage.FixSymbol` | src/libc/dxe/dlopen.c:307-321 | the loops over one symbol make all its fixes in the order of the table, and none while its address is 0 |
| `DxeImage.SymbolMeans` | src/libc/dxe/dlopen.c:307-321 | the same for the references to one symbol |
| `DxeFormat.Layout` | src/dxe/dxe3gen.c:1243-1259 | the regions of a file follow each other without gap or overlap, and the section starts at a multiple of 16 |
| `DxeBytes.WrittenHolds` | src/dxe/dxe3gen.c:1243-1289 | the bytes of a written file: every entry of every table where the header and the entries before it put it, numbers lowest byte first, two counts before the name of an unresolved symbol and its sites behind it |
| `DxeFormat.LoadBack` | src/libc/dxe/dlopen.c:223-349 | loading a written file gives back its exports, section, dependencies, unresolved symbols with their sites, relocations and entrances, whatever description follows |
| `DxeFormat.LoadFile` | src/libc/dxe/dlopen.c:223-349 | the loops read what the format describes, and fail exactly if a region or a name runs past the end |
| `DxeFormat.ReadUnres` | src/libc/dxe/dlopen.c:304-324 | one entry of the unresolved table, with its two kinds of sites |
| `DxeFormat.UnresolvedBack` | src/dxe/dxe3gen.c:1079-1116 | reading back a written unresolved table, with names without NUL and counts below 65536 |
| `DxeFormat.ExportsBack` | src/dxe/dxe3gen.c:1182-1189 | reading back a written export table |
| `DxeFormat.TablesBack` | src/dxe/dxe3res.c:329-341 | the resolver's three reads of a written file find the names it exports, leaves unresolved and depends on |
| `DxeFormat.Parse` | src/dxe/dxe3res.c:211-236 | the names of both tables, the sites being skipped by their counts |
| `DxeFormat.SkipUnres` | src/dxe/dxe3res.c:230-232 | skipping an entry by its counts ends where reading its sites would |
| `DxeFormat.ReadLists` | src/dxe/dxe3res.c:211-236 | the three reads of a file give the names it exports, leaves unresolved and depends on, or fail where one runs past its table |
| `DxeFormat.ListsBack` | src/dxe/dxe3res.c:329-341 | of a written file they are the names of the module |
| `DxeWhole.ModuleWritable` | src/dxe/dxe3gen.c:1229-1285 | a module made from an object with C names, and not too many references to a symbol, can be stored and read back |
| `DxeWhole.Generate` | src/dxe/dxe3gen.c:995-1291 | the outcome is the one that the symbol table calls for, and the file written loads as the module and shows the resolver its names |
| `DxeWhole.GenerateAndLoad` | src/libc/dxe/dlopen.c:223-349 | object to file to loaded section: the names missing are those without address that a relocation needs, and without any, every field holds what its relocation asks for, computed from the original bytes, and no other byte has changed |
| `DxeWhole.ResolverReads` | src/dxe/dxe3res.c:329-341 | the resolver can read every module written, and finds the names of its exports, of its unresolved symbols and of its dependencies, each in its list |
| `DxeChain.LoadedIffReachable` | src/libc/dxe/dlopen.c:439-472 | when every counter is the number of references, the loaded modules are exactly those reachable from held ones |
| `DxeChain.Acyclic` | src/libc/dxe/dlopen.c:184-190 | no walk along dependency lists returns to where it began |
| `DxeChain.LiveLive` | src/libc/dxe/dlopen.c:457-468 | releasing references in two steps or at once keeps the same modules alive |
| `DxeChain.AddModule` | src/libc/dxe/dlopen.c:356-364 | a module put in front, its dependency list turning held references into counted ones, keeps every counter right |
| `DxeChain.RemoveModule` | src/libc/dxe/dlopen.c:446-468 | taking off a module whose count is used up keeps every counter right, its dependencies being held until released |
| `DxeOpening.OpensExactly` | src/libc/dxe/dlopen.c:108-432 | opening succeeds exactly for a name that is found and stands for no file to blame: one in a set of files not loaded, each unreadable, depending on a name that is not found or leads into the set, or lacking a symbol when its turn comes |
| `DxeOpening.OpenLacksNothing` | src/libc/dxe/dlopen.c:299-333 | in what is opened no file has lacked a symbol when its turn came |
| `DxeOpening.OpensOnlyPossible` | src/libc/dxe/dlopen.c:108-432 | whatever the symbols, no doomed file is opened |
| `DxeOpening.TryAvoids` | src/libc/dxe/dlopen.c:184-297 | nothing that is opened brings in a file that cannot be loaded |
| `DxeOpening.CycleNeverLoads` | src/libc/dxe/dlopen.c:184-190 | a file on a dependency cycle is never loaded, by whatever name and from whatever state |
| `DxeLoader.Loader.Dlopen` | src/libc/dxe/dlopen.c:108-432 | unless memory runs out, the outcome is that of `Try`: the same handle or failure, the same modules in the same order, at the same addresses; success means one more reference to the module of that name, the earlier modules unchanged and a new one linked against them; failure for whatever reason leaves the chain, all counters and all references as they were |
| `DxeLoader.Loader.LoadDeps` | src/libc/dxe/dlopen.c:255-297 | one reference is held for each dependency opened, in order, up to the first that fails, which is the one that fails in `TryAll` |
| `DxeLoader.Loader.OpenDep` | src/libc/dxe/dlopen.c:259-275 | a dependency is opened with its dependent on the stack, so recursion ends and cycles fail |
| `DxeLoader.Loader.Complete` | src/libc/dxe/dlopen.c:299-364 | unless memory runs out, a module goes in front of the chain exactly if no symbol is missing, its section fixed with the addresses the chain behind it gives |
| `DxeLoader.Loader.Settle` | src/libc/dxe/dlopen.c:299-431 | after the dependencies the new module is in front, or everything they brought is given up again, as `Finished` decides |
| `DxeLoader.DependenciesFirst` | src/libc/dxe/dlopen.c:351-353 | in the order of initialisation each module comes once, after all its dependencies |
| `DxeLoader.Loader.Rollback` | src/libc/dxe/dlopen.c:416-431 | releasing the gathered dependencies in load order restores the chain exactly, also when later ones share earlier ones |
| `DxeLoader.RollbackRestores` | src/libc/dxe/dlopen.c:416-431 | of a chain that has grown in front, the references from before keep alive exactly what there was |
| `DxeLoader.Loader.Dlclose` | src/libc/dxe/dlopen.c:434-475 | what stays is what the remaining references keep alive; what leaves is finalised once, dependents before their dependencies; the sum of the counters goes down |
| `DxeLoader.Loader.CloseAll` | src/libc/dxe/dlopen.c:457-468 | the same for releasing a whole dependency list |
| `DxeLoader.Loader.Closeall` | src/libc/dxe/dlopen.c:102-106 | it ends, with an empty chain and every module finalised once, dependents first |
| `DxeLoader.Loader.Unlink` | src/libc/dxe/dlopen.c:442-455 | the module leaves the chain, its dependency list still to be released, and nobody names it any more |
| `DxeLoader.Dlsym` | src/libc/dxe/dlopen.c:481-511 | the newest global module that exports the name decides, by its first export of it; else the first table whose first entry of the name is not 0; and the resolver is asked about what is still 0 |
| `DxeLookup.AddressMeans` | src/libc/dxe/dlopen.c:481-511 | the address used when linking is that one too |
| `DxeLookup.LookupUnique` | src/libc/dxe/dlopen.c:481-511 | and there is only one |
| `DxeLookup.DependencySeen` | src/libc/dxe/dlopen.c:255-333 | a name that a module in the chain exports, at an address other than 0, is not missing for what is opened with it as dependency, if it has been loaded for that or was global before |
| `Strings.CompareEqual` | src/dxe/dxe3res.c:117-120 | strcmp is 0 exactly for equal strings |
| `Strings.LessExactly` | src/dxe/dxe3res.c:117-120 | a string is less than another exactly if it is a proper prefix of it or has the smaller character at the first difference |
| `Strings.LessThrough` | src/dxe/dxe3res.c:117-120 | and orders them transitively |
| `DxeRes.Resolver.Process` | src/dxe/dxe3res.c:362-418 | on cyclic graphs too it ends; without failure every module from the given place on, and all it leads to, has been read |
| `DxeRes.Resolver.ProcessOne` | src/dxe/dxe3res.c:373-415 | one module with the recursion inside the loop: modules added meanwhile are covered too |
| `DxeRes.ProcessAll` | src/dxe/dxe3res.c:463-464 | unless memory runs out it succeeds exactly if every module of the dependency closure of the command line can be read; the modules found are that closure, each added once, and the lists hold the names of exactly those |
| `DxeRes.ClosedHasChain` | src/dxe/dxe3res.c:390-411 | whatever is closed under dependencies contains every chain of them |
| `DxeRes.AllFound` | src/dxe/dxe3res.c:373-415 | modules that cover each other are all there is to reach |
| `DxeRes.Sift` | src/dxe/dxe3res.c:131-142 | in a sorted list only the first of equal names stays, and only if it is not exported |
| `DxeRes.Search` | src/dxe/dxe3res.c:139-139 | binary search in a sorted list finds a name exactly if it is there |
| `DxeRes.ShownNames` | src/dxe/dxe3res.c:159-174 | what is written after sifting is each unresolved name that is not exported, once |
| `DxeRes.Resolve` | src/dxe/dxe3res.c:429-477 | unless memory runs out a table is written exactly if every module of the closure can be read; a name is in it, once, if one of them leaves it unresolved and none exports it, otherwise not at all |
| `DjasmCode.LaterIsNow` | src/djasm/djasm.c:5647-5686 | adding a value to a field of one, two or four bytes later is adding it before the field is written |
| `DjasmCode.SameWrapped` | src/djasm/djasm.c:5661-5686 | a sum that has wrapped around as an int leaves the same bytes |
| `DjasmCode.SmallStays` | src/djasm/djasm.c:5657-5659 | a one-byte field holds what was meant exactly if it fits |
| `DjasmCode.FieldMeans` | src/djasm/djasm.c:5801-5862 | what a field says: for REL_16 and REL_8 the end of the field plus its number is the value plus the offset, modulo 2^16 and 2^8, for the absolute kinds the number is, modulo their width |
| `DjasmSymbols.Assembler.GetSymbol` | src/djasm/djasm.c:5458-5479 | the one symbol of that name, made if there is none |
| `DjasmSymbols.Assembler.DestroyLocals` | src/djasm/djasm.c:5723-5750 | the local symbols leave the table, and those awaited but never defined are counted |
| `DjasmSymbols.Assembler.Emits` | src/djasm/djasm.c:5801-5862 | a defined symbol's value or distance is put out with its range error, an undefined one's offset with a patch |
| `DjasmSymbols.Assembler.SetSymbol` | src/djasm/djasm.c:5618-5692 | all patches are applied and used up, locals end at an ordinary definition, and @fN stays undefined |
| `DjasmSymbols.PatchSays` | src/djasm/djasm.c:5628-5688 | a patched field says the same, and no other byte changes |
| `DjasmSymbols.Assembler.Conclude` | src/djasm/djasm.c:5149-5159 | at the end every symbol awaited but never defined is counted |
| `DjasmSymbols.KeptUnique` | src/djasm/djasm.c:5723-5750 | names stay unique |
| `DjasmBinding.PatchPieces` | src/djasm/djasm.c:5628-5688 | applying a patch list rewrites exactly the awaiting fields, as if emitted with the value |
| `DjasmBinding.DefineRewrites` | src/djasm/djasm.c:5618-5692 | a definition gives its value to all pending references and changes no other byte |
| `DjasmBinding.DefineFaults` | src/djasm/djasm.c:5673-5684 | and adds the range errors of exactly those |
| `DjasmAssembly.Assemble` | src/djasm/djasm.c:5618-5862 | the single pass puts out, for any interleaving of bytes, references and definitions, the bytes of an assembler that knows what every reference means: each reference that means a definition says its value plus the offset, from the place where it is; nothing is reported undefined exactly if every reference means a definition |
| `DjasmAssembly.NothingUndefined` | src/djasm/djasm.c:5149-5159 | the number of names reported undefined, at the ends of regions and at the end, is 0 exactly if every reference means a definition |
| `DjasmAssembly.AwaitedMeans` | src/djasm/djasm.c:5723-5750 | a local name is counted at an ordinary definition exactly if it is referred to since the last one and not defined since |
| `DjasmAssembly.LostAwaited` | src/djasm/djasm.c:5723-5750 | the symbols found undefined in the table are as many as the names still awaited |
| `DjasmAssembly.StepRef` | src/djasm/djasm.c:5801-5862 | one reference keeps the symbol table true to the acts so far |
| `DjasmAssembly.StepDefine` | src/djasm/djasm.c:5618-5692 | so does one definition, with all its patches |
| `DjasmAssembly.FateIsMeaning` | src/djasm/djasm.c:5618-5627 | a reference gets the value of the definition it means once that is reached, and none if it means none |
| `DjasmAssembly.MeansOne` | src/djasm/djasm.c:5618-5692 | it means at most one |
| `DjasmAssembly.Labels` | src/djasm/djasm.c:6280-6300 | @fN means the first later definition, @bN once defined the latest earlier one, only ?name, @fN and @bN are defined between a ?name and its definition, and any other name means its latest earlier definition or else the first later one |
| `DjasmAssembly.ErrorsAgree` | src/djasm/djasm.c:5673-5684 | range errors counted by the pass are those of direct emission exactly if every patched byte's offset fits, is never bound, or wraps around into range |
| `DjasmAssembly.OneCost` | src/djasm/djasm.c:5825-5861 | the same for a single reference |
| `DjasmAssembly.FarOffsetDiffers` | src/djasm/djasm.c:5853-5859 | an offset of 200 with the value that takes it back to 0 costs two errors instead of none |
| `DjasmModrm.FindReg` | src/djasm/djasm.c:5869-5877 | the number of the register bit, 4 without one |
| `DjasmModrm.Operand.Join` | src/djasm/djasm.c:6022-6048 | a register joins the address so that each register counts as often as asked for, or is refused for the stated reasons |
| `DjasmModrm.Operand.Addr32` | src/djasm/djasm.c:6014-6056 | the same with prefix, mixing with 16-bit addressing and errors |
| `DjasmModrm.Operand.NoOffset` | src/djasm/djasm.c:5885-5897 | without displacement the operand ends, with a zero byte exactly for mod 1 |
| `DjasmModrm.Operand.Collect` | src/djasm/djasm.c:5977-5995 | the known part of the displacement, and a patch for each occurrence of an undefined symbol |
| `DjasmModrm.Operand.Displace` | src/djasm/djasm.c:5977-6011 | a one-byte displacement exactly if everything is known and it fits, else one of full size |
| `DjasmModrm.Operand.EncodeBase` | src/djasm/djasm.c:5919-5947 | 32-bit operands with a base are read back as asked for, ebp and esp included |
| `DjasmModrm.Operand.EncodeIndex` | src/djasm/djasm.c:5948-5957 | a scaled index alone is read back as asked for exactly if its displacement is unknown or not small |
| `DjasmModrm.Operand.Encode16` | src/djasm/djasm.c:5958-5974 | all 16-bit register combinations are read back as asked for, the others are errors |
| `DjasmModrm.Operand.EncodeNone` | src/djasm/djasm.c:5908-5913 | a displacement alone, or the accumulator form |
| `DjasmModrm.Operand.EncodeBp` | src/djasm/djasm.c:5914-5917 | [bp] is read back as such |
| `DjasmModrm.Operand.Reg` | src/djasm/djasm.c:5901-6012 | the manual reads what is put out as the operand asked for, in every branch, with the patches awaited at the right place |
| `DjasmModrm.FindPair` | src/djasm/djasm.c:5959-5970 | the rm value of a set of 16-bit registers, if there is one |
| `DjasmModrm.ScaledAloneFails` | src/djasm/djasm.c:5948-5957 | [eax*2] put out as two bytes is no operand, with four more it is |
| `DjasmOperand.PlanMeans` | src/djasm/djasm.c:4624-4664 | what the actions for the terms collect has each 32-bit register as often as asked for, the set of the 16-bit registers, the sum of the numbers, and all symbols |
| `DjasmOperand.TakeTerm` | src/djasm/djasm.c:4624-4664 | one term, of either register size, a number or a symbol: it is collected or refused |
| `DjasmOperand.Gather` | src/djasm/djasm.c:4624-4664 | any list of terms: the plan is collected, or an error reported exactly if there is none |
| `DjasmOperand.AcceptedExactly` | src/djasm/djasm.c:6014-6056 | an operand is refused exactly if it has more than two 32-bit registers, two scaled ones, a scaled esp, esp twice, or registers of both sizes |
| `DjasmOperand.MeansSums` | src/djasm/djasm.c:5901-6012 | those are: with 32-bit registers, all but a lone scaled one whose displacement is known and small; with 16-bit registers that go together, all that ask for none of them twice |
| `DjasmOperand.TwiceFails` | src/djasm/djasm.c:4629-4637 | [bx+bx] is put out as [bx], without an error |
| `DjasmOperand.Encode` | src/djasm/djasm.c:5869-6056 | a whole operand: either errors, or a prefix, the opcode and bytes that the manual reads with every register as often as the terms ask for it and with their sum as displacement, the latter exactly for the operands that come out right |
| `DjasmLater.PatchesHere` | src/djasm/djasm.c:5628-5688 | the patches of a symbol add its value to an operand once for each time the operand names it, and leave all else of the operand alone |
| `DjasmLater.Define` | src/djasm/djasm.c:5618-5692 | a definition adds to an operand what its symbol still owes it, and nothing is owed any more |
| `DjasmLater.EncodeAndFollow` | src/djasm/djasm.c:5977-5995 | whatever bytes, references and definitions follow an operand, in any order, its bytes are read with its registers and the sum of its numbers and all values known by then, exactly for the operands that come out right |
| `MkdocShape.LeafKeepsShape` | src/mkdoc/mkdoc.cc:663-681 | a leaf at a free place makes a binary tree over the longer sequence again |
| `MkdocTree.MakeSname` | src/mkdoc/mkdoc.cc:20-39 | the name without leading underscores, in lower case |
| `MkdocTree.SortNameIs` | src/mkdoc/mkdoc.cc:20-39 | what follows the underscores in front, its letters in lower case and all else as it is |
| `MkdocTree.Tree.Add` | src/mkdoc/mkdoc.cc:659-682 | the node comes in front of the first name not less than its own; order, children and both threads are those of the longer sequence |
| `MkdocTree.Tree.Descend` | src/mkdoc/mkdoc.cc:664-676 | each turn narrows the place down, prev and next being the neighbours it would have |
| `MkdocTree.Tree.Locate` | src/mkdoc/mkdoc.cc:663-676 | the walk ends at a missing child, in front of the first name not less than the new one |
| `MkdocTree.Tree.Traverse` | src/mkdoc/mkdoc.cc:627-636 | a subtree is visited in the order of the thread |
| `MkdocTree.Tree.TraverseAll` | src/mkdoc/mkdoc.cc:130-130 | and the whole tree |
| `MkdocTree.Tree.Search` | src/mkdoc/mkdoc.cc:688-702 | a node with the name is found exactly if there is one |
| `MkdocTree.Tree.Find` | src/mkdoc/mkdoc.cc:684-707 | a node with the name comes back, a new one only if there was none; names that are all different stay so |
| `Redirect.Process.MoveFd` | src/debug/common/dbgredir.c:88-106 | it ends; the file goes to the lowest free handle from min_fd on, or nothing changes |
| `Redirect.Process.SafeDup` | src/debug/common/dbgredir.c:128-141 | a duplicate from 5 on if there is room, below if there is only that |
| `Redirect.SwapEffect` | src/debug/common/dbgredir.c:234-288 | one swap puts one side's file in place and keeps the other's, touches no third handle and loses none |
| `Redirect.Session.HandleToChild` | src/debug/common/dbgredir.c:234-259 | one handle is swapped to the program |
| `Redirect.Session.HandleToDebugger` | src/debug/common/dbgredir.c:263-288 | and back |
| `Redirect.Session.RedirToChild` | src/debug/common/dbgredir.c:462-478 | all three handles are the program's, the debugger's are kept, no other handle changes |
| `Redirect.Session.RedirToDebugger` | src/debug/common/dbgredir.c:482-498 | and the other way round |
| `Redirect.Session.Turn` | src/debug/common/dbgredir.c:460-498 | one turn: the program finds its files, the debugger gets its own back, and every other handle is as it was |
| `Redirect.Session.Alternate` | src/debug/common/dbgredir.c:460-498 | over any number of turns the program finds on each what it left the last time, and the debugger its own files after each; every handle not kept for one of them is as it was |
| `Mcount.Profiler.Mcount` | src/libc/crt0/mcount.c:55-134 | a call is counted once if profiling is on and it comes from the range, by the cache, the search or a new entry |
| `Mcount.Profiler.Search` | src/libc/crt0/mcount.c:91-113 | the entry of a pair exactly if it has one, else the next free slot of the newest page |
| `Mcount.Profiler.NewPage` | src/libc/crt0/mcount.c:124-128 | a page is added only when the newest is full |
| `Mcount.TableBump` | src/libc/crt0/mcount.c:106-107 | one more call of a known pair keeps every count right |
| `Mcount.TableFill` | src/libc/crt0/mcount.c:114-119 | so does a new entry, and no pair has two |
| `Mcount.Profiler.Write` | src/libc/crt0/mcount.c:187-206 | every pair is written once, with its count, though each page is only written up to its first free slot |
| `Mcount.Profile` | src/libc/crt0/mcount.c:208-229 | over any run of calls and of switching profiling, what is written is a counter for each pair that is called from the range while profiling is on, and counts these calls |
| `Mcount.SampledCalls` | src/libc/crt0/mcount.c:69-80 | the calls to be counted, as a set of events |
| `CommandLine.AtoHex` | src/libc/crt0/c1args.c:46-60 | the value of the digits, in upper or lower case |
| `CommandLine.DigitsRead` | src/libc/crt0/c1args.c:46-60 | the sixteen digits, in either case |
| `CommandLine.HexBack` | src/stub/go32-v2.c:369-369 | a field printed with %04x is read back by atohex |
| `CommandLine.ParseArg` | src/libc/crt0/c1args.c:120-160 | the argument at the front of a line, compacted in place with its quotes handled, and where it ends |
| `CommandLine.ParseBytes` | src/libc/crt0/c1args.c:162-192 | the arguments of a line |
| `CommandLine.QuotedBack` | src/libc/crt0/c1args.c:126-156 | a text in single or double quotes, quotes in it escaped, is taken back exactly if it does not end in a backslash |
| `CommandLine.BareBack` | src/libc/crt0/c1args.c:126-156 | a text outside quotes, quotes in it escaped, is taken back exactly if it has no blank |
| `CommandLine.OtherQuoteKept` | src/libc/crt0/c1args.c:126-156 | between quotes the other kind of quote stands for itself, and so does a backslash not before a quote |
| `CommandLine.TakeKeeps` | src/libc/crt0/c1args.c:126-156 | without unquoting the argument is the bytes looked at, and these are the same with unquoting |
| `CommandLine.LineBack` | src/libc/crt0/c1args.c:162-192 | any arguments written in any mixture of the three ways, with blanks of any kind that isspace knows between them, are the arguments of the line |
| `CommandLine.BlankSkipped` | src/libc/crt0/c1args.c:175-178 | blanks of every kind in front of an argument do not matter |
| `Proxy.CommandWords` | src/stub/go32-v2.c:368-373 | the printed command line has the four arguments the reader expects |
| `Proxy.CommandIs` | src/stub/go32-v2.c:368-369 | the text of the command line, character by character |
| `Proxy.HexIs` | src/stub/go32-v2.c:369-369 | %04x: four digits, in lower case, filled with zeros |
| `Proxy.FitsExactly` | src/stub/go32-v2.c:342-345 | the bytes asked for are exactly those of the table and the strings |
| `Proxy.BlockBytes` | src/stub/go32-v2.c:356-367 | the bytes of the block: two for each offset, lowest first, each pointing behind the table and the strings before its own |
| `Proxy.RunV2Coff` | src/stub/go32-v2.c:342-373 | cmdlen decides the paragraphs asked for; the block is the table of offsets and the strings, nothing outside it is written, and the command line says where it is; without memory nothing is written |
| `Proxy.ReadBlock` | src/libc/crt0/c1args.c:460-484 | the arguments are read back from whatever table lies in memory, unquoted where asked for |
| `Proxy.SkipName` | src/libc/crt0/c1args.c:417-426 | in CMDLINE the program name up to the first blank is skipped, but of a quoted name only the quote |
| `Proxy.NameSkipped` | src/libc/crt0/c1args.c:417-426 | the name in CMDLINE is skipped, and nothing else, exactly if it is not in quotes |
| `Proxy.QuotedNameStays` | src/libc/crt0/c1args.c:417-429 | from a quoted name and an x the program gets one argument, made of both |
| `Proxy.FirstWords` | src/libc/crt0/c1args.c:408-430 | the arguments of the command tail, or of CMDLINE where the tail has length 127 and it is set |
| `Proxy.SetupArguments` | src/libc/crt0/c1args.c:400-486 | for any command tail and either environment variable: the words of the line in force, or the argument list they point to in memory if they are a hand-over |
| `Proxy.BlockFetched` | src/libc/crt0/c1args.c:463-475 | a block read back is the list it was written for |
| `Proxy.HandOver` | src/stub/go32-v2.c:312-374 | from one program to the other the argument list arrives unchanged, unless there is no memory for it |
| `Proxy.HandOverQuoted` | src/libc/crt0/c1args.c:439-484 | by way of the environment, quoted arguments arrive unquoted as they were exactly if they do not end in a backslash |
| `ArgTree.CountArgs` | src/libc/crt0/c1args.c:224-246 | the number of leaves of the argument tree |
| `ArgTree.FillArgs` | src/libc/crt0/c1args.c:248-274 | exactly that many pointers are written, in leaf order |
| `ArgTree.LeavesJoin` | src/libc/crt0/c1args.c:248-274 | leaf order: list after list, each argument standing for what it was expanded to, in that order |

## Left out

- Headers: `sys/dxe.h`, the COFF headers and `fdlibm.h` are not part of this model; the size
  of the DXE3 header is a parameter and its fields are a record.
- NaN, infinity and division by zero in fmod and remainder: only that the exceptional branch
  is taken.
- The other functions of libm, whose results are approximations of real functions.
- dlopen.c:358: this `malloc` is taken to succeed; the code would lose the chain there.
- Initialisers and finalisers of modules: the order in which they are called is logged, the
  dependencies being initialised before and finalised after a module; they are taken not to
  call the loader themselves.
- `DxeLoader.Loader.Dlclose`: asks for a handle that is still held, as the code does of its
  callers; closing once too often is not modelled.
- `DxeLoader.Dlsym`: lookup in one given module is `SearchExports` on its table.
- `DxeWhole.GenerateAndLoad`: asks for relocations that do not change the same byte; what
  overlapping ones do depends on their order.
- `DxeFormat.LoadFile`: that a name running past its table makes loading fail is the model's
  own; the code would read on.
- File search paths, `errno` in the loader and the text of its last error.
- dxe3gen before the scan (reading the COFF file, running the linker), the legacy DXE1 form,
  and verbose output.
- dxe3res: the memory for a module's tables counts as part of reading it; the list that owns
  the tables is not modelled, and `qsort` and `bsearch` are an insertion sort and a binary
  search. The module names in the written table are left out.
- djasm: the generated parser, the opcode tables, structures and enumerations, line numbers,
  warnings, and the OMF and COFF output. Single bytes of a symbol are only asked for once it
  is defined, as the grammar does. The symbol table is a sequence of symbol objects rather
  than a linked list.
- djasm operands: the grammar rules that lead to the terms, with their errors for a scale
  other than 1, 2, 4 or 8; and more symbols in one operand than `_modrm.syms` has room for.
- mkdoc: what the nodes carry, destructors, and the rest of the program.
- dbgredir: parsing and opening redirections. dup, dup2 and close fail only for a closed
  handle or a full table, and the table has room for the four handles a swap needs.
- mcount: the histogram and the timer. The sampled range does not begin at address 0, which
  `monstartup` makes sure of; the entries of a page are one field.
- c1args: wildcards, response files, and `was_quoted`. An argument into which an escaped NUL
  has come keeps it and what follows, where C's string functions see its front. A name in
  CMDLINE is taken to end within it, and the value of !proxy to fit its buffer, as the code
  does.
- The writer's quoting (dosexec.c), which escapes double quotes only: the quoted form here is
  the one that `parse_arg` undoes.
- `Proxy.RunV2Coff`: asks for an argument count and a block size within 64K, which is what
  four hex digits and 16-bit offsets can say.
- `v2loadimage`, which carries the command tail over; the DPMI and BIOS code; the debuggers'
  screens; the small utilities.
