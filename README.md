# Sedona and Piedmont, modelled in Dafny

Sedona is a course-schedule tool for a university whose timetables live in
the SIGA web portal. It has four parts:

- **sedona.py** is an interactive console program. It drives a browser
  through SIGA's course listing and rebuilds the flat table as a tree:
  subject code → sections → 10 × 7 schedule matrix. Each section's matrix
  and professor list come from a popup. The program keeps the tree as a
  JSON snapshot and answers room and free-block queries over it.
- **piedmont/piedmont-webscraper.py** is the batch version of the same
  scrape. It adds a checkpoint file that lets a failed run resume, and a
  retry loop around the whole cycle. It then imports the tree into a MySQL
  schema (campus, semestre, asignatura, paralelo, profesor,
  paralelo_profesor, horario), replacing the stored copy of the semester.
- **sedona/buscar_asignaturas.php, buscar_salas.php and
  buscar_salas_vacias.php** are the web pages that search that schema by
  subject, by room and by free block.
- **sedona/js/api.js** contains the "now" button of the free-room form. It
  picks today's weekday and the current teaching block.

The model has one module per component:

| module | file | models |
|---|---|---|
| `Wrappers` | wrappers.dfy | Option and Result |
| `Text` | text.dfy | Python strip/split/replace, PHP strtolower/trim, the PCRE character classes |
| `Schedule` | schedule.dfy | the cell classifier and the popup's matrix and professor extraction, in both scrapers' variants |
| `SedonaScraper` | sedona_scraper.dfy | the interactive scraper's row walker |
| `SedonaMenu` | sedona_menu.dfy | the semester code and the campus menu mapping |
| `SedonaConsultas` | sedona_queries.dfy | the room index and the free-room queries |
| `PiedmontScrape` | piedmont_scrape.dfy | the batch walker, its checkpoint and the retry cycle |
| `PiedmontImport` | piedmont_import.dfy | the import into in-memory tables |
| `PiedmontConexion` | piedmont_conexion.dfy | the semester replacement transaction |
| `PiedmontConfig` | piedmont_config.dfy | the configuration and credential readers |
| `SedonaWeb` | sedona_web.dfy | the pieces the three pages share |
| `BuscarAsignaturas`, `BuscarSalas`, `BuscarSalasVacias` | one file each | the three search pages |
| `Autofill` | autofill.dfy | the api.js form logic |

**Inputs as parameters.** Everything the code obtains from outside becomes
a parameter:

- a popup is plain data (the professor cell and the rows of "letra7"
  sub-tables), and opening the popup of row n is a function
  `nat -> Option<Popup>`;
- the success of each JSON, checkpoint or database save is a function of
  the row counter;
- SQL query results are sequences of rows;
- the MySQL schema is a record of maps from id to row, and every INSERT
  takes the next id;
- the clock is a number of minutes and a weekday.

Python dicts keep insertion order, so every scraped tree is a map plus the
sequence of its keys.

**Behaviour of the code worth knowing:**

- sedona.py's `procesarSala` reads `partes[1]` without a length check. A
  cell whose only line starts with "Prof." therefore raises IndexError and
  fails the whole row. Only piedmont's version returns "".
- sedona.py's extraction fails when the professor header is missing.
  Piedmont's extraction continues with an empty list instead.
- Removing "Sala " with `str.replace` can leave a "Sala " behind
  (`Schedule.ProcesarSalaDejaResiduo`).
- The doc comment of `obtener_base_sala` (buscar_salas.php:42) maps
  "B008 LAB-MEC" to "B008". The case order at lines 52-57 returns "LAB-MEC"
  (`BuscarSalas.EjemploDocumentado`).

**Source quirks reproduced on purpose:**

- sedona.py files the popup of a new subject's section under section
  `[0]` (line 508), not under the section just appended.
- sedona.py stops after three rows (lines 555-556).
- Piedmont's resume skip counts separator rows that the loop itself never
  counts.
- An empty section timetable, which the `[0]` filing above leaves on
  the sections it skips, makes `enumerarSalas` (sedona.py:1061) raise
  IndexError. The room queries that use it fail the same way.
- api.js's "now" button runs the block table as written, including the
  short second block found at sedona/js/api.js:112. The corrected table appears only in
  the lemmas of that finding.
- Piedmont inserts every schedule row twice, at lines 144-157 and 160-178.
- The `printInfo` call at piedmont line 157 reads `profesor_id`, which is unbound
  while no non-empty professor name has been seen. The model turns that
  NameError into a failed import.

## Model

| member | source | states |
|---|---|---|
| Schedule.MapaFilasBloque | sedona.py:220-223 | physical row 19·b+1 of the popup table is the only row mapped to matrix row b, for every b < 10 |
| Schedule.MapaFilasPosicion | piedmont/piedmont-webscraper.py:358-361 | every row the map knows is 19·b+1 for some block b < 10 |
| Schedule.ProcesarSala | sedona.py:150-162 | a classified room has no leading or trailing whitespace; piedmont's variant never fails |
| Schedule.ProcesarSalaCasos | piedmont/piedmont-webscraper.py:314-322 | all four cases: "Prof." with a second line gives that line trimmed; "Prof." alone fails in sedona.py and gives "" in piedmont; otherwise the first line with every "Sala " removed, trimmed |
| Schedule.ProcesarSalaLineaSimple | sedona.py:160-162 | a one-line cell without "Prof." and without "Sala " is returned trimmed |
| Schedule.ProcesarSalaUnaLinea | sedona.py:152-162 | a one-line cell without "Prof." becomes the line with every "Sala " removed, trimmed |
| Schedule.ProcesarSalaDejaResiduo | sedona.py:160 | "SalSala a 1" classifies as "Sala 1": removing "Sala " once can create a new "Sala " |
| Schedule.ListaProfesores | sedona.py:188 | the professor list has no empty or untrimmed names and is no longer than the cell's lines |
| Schedule.ListaProfesoresContiene | piedmont/piedmont-webscraper.py:344 | a name is in the list iff it is non-empty and some line of the cell trims to it |
| Schedule.MatrizSpec | sedona.py:199-237 | the matrix fails iff some row with at least 9 sub-tables holds a failing cell (sedona.py only); a result is 10 × 7 with trimmed cells |
| Schedule.CeldaSoloDesdeFilaMapeada | sedona.py:229-233 | a non-empty cell (b, d) comes from physical row 19·b+1 and is that row's classified sub-table d+2 |
| Schedule.FilasSobrantesIgnoradas | piedmont/piedmont-webscraper.py:363-378 | rows after the last mapped row (172) never change the matrix |
| Schedule.ClasificarFila | piedmont/piedmont-webscraper.py:370 | a row's seven classified cells are sub-tables 2..8, or a failure iff one of them fails |
| Schedule.EscribirFila | sedona.py:229-233 | writing a row changes only the non-empty cells of that matrix row |
| Schedule.LlenarMatriz | sedona.py:205-237 | the row loop computes exactly MatrizSpec |
| Schedule.LeerFila | sedona.py:208-235 | one pass of the row loop fails exactly on a rejected cell; otherwise the matrix so far agrees with MatrizSpec on the rows read, one more than before |
| Schedule.MatrizLlena | sedona.py:205-237 | once every row is read without a rejected cell, the matrix is MatrizSpec's |
| Schedule.SinEncabezado | sedona.py:197 | dropping the header row shifts every row down by one |
| Schedule.Extraido | sedona.py:165-250 | what one popup yields: sedona.py fails without the professor header, without the table or on a failing cell; piedmont fails only without the table and then has no professors; the matrix is MatrizSpec of the rows after the header |
| Schedule.ExtraerHorario | piedmont/piedmont-webscraper.py:324-386 | the extraction method computes exactly Extraido |
| Schedule.AgregarHorario | sedona.py:252-288 | the popup round trip of row n gives the popup's extraction, or a failure when the popup cannot be opened |
| SedonaScraper.AgregarSeccion | sedona.py:475-537 | folding one row keeps the tree well formed (keys in insertion order, no repeats) and leaves the counter and the published flag alone |
| SedonaScraper.FilaConSigla | sedona.py:487-517 | a row with a code appends one section (name, department, paralelo, cupos) to that code, files the popup's matrix and professors under section [0], carries the code forward and leaves every other code alone; it fails iff the popup fails |
| SedonaScraper.FilaSinSigla | sedona.py:520-537 | a row without a code appends a section with the carried name and department to the carried code; it fails iff no code was seen yet or the popup fails |
| SedonaScraper.PasoFila | sedona.py:462-561 | a separator row changes nothing; any other row that succeeds adds one to the counter and publishes the tree |
| SedonaScraper.Recorrer | sedona.py:462-561 | the row walk never breaks the tree's well-formedness |
| SedonaScraper.LimiteDepuracion | sedona.py:553-556 | a walk that starts below three rows never counts past three |
| SedonaScraper.SoloSeparadores | sedona.py:472-473 | a table of separators leaves the state as it was |
| SedonaScraper.ProcesarFila | sedona.py:487-537 | the row method computes AgregarSeccion on the popup of the current counter |
| SedonaScraper.ActualizarBaseDatos | sedona.py:290-588 | the scrape succeeds iff the walk over all rows does, and then returns the walk's state |
| SedonaMenu.Semestre | sedona.py:925-928 | the half is '1' or '2' |
| SedonaMenu.DeterminarSemestreActual | sedona.py:916-932 | the code is all digits and ends in '1' iff the month is 1..7 |
| SedonaMenu.SemestreLegible | sedona.py:931 | the digits before the last one read back as the year |
| SedonaMenu.SemestreCincoCaracteres | piedmont/piedmont-webscraper.py:701-704 | a four-digit year gives a five-character code |
| SedonaMenu.EtiquetaMenu | sedona.py:614-618 | the menu labels exist exactly for options "1".."5" |
| SedonaMenu.CampusSiga | sedona.py:626-648 | the SIGA campus code exists exactly for options "1".."5" |
| SedonaMenu.NombreCampus | sedona.py:388-401 | actualizarBaseDatos names a campus exactly for the codes 1, 4, 7, 2 and 3 |
| SedonaMenu.CampusCoherente | sedona.py:388-401 | the campus name that actualizarBaseDatos prints for the mapped code is the menu label of the option |
| SedonaMenu.CampusBiyectivo | sedona.py:631-646 | two options never map to one code, and the named codes are exactly the mapped ones |
| SedonaConsultas.NormalizarNombreSala | sedona.py:1034-1037 | the result is a suffix of the name |
| SedonaConsultas.NormalizarNombreSalaPrefijo | sedona.py:1034-1037 | a five-character "sala " prefix, in any letter case, is dropped; a name without it is unchanged |
| SedonaConsultas.TablaLibre | sedona.py:1065-1068 | a new room's table has exactly the 10 × 7 slots |
| SedonaConsultas.OcupanteExiste | sedona.py:1053-1070 | a slot has an occupant iff some section uses that room at that slot |
| SedonaConsultas.PlegarSalas | sedona.py:1063-1070 | the index holds exactly the rooms that appear, each with a full table, in first-seen order without repeats |
| SedonaConsultas.PlegarValor | sedona.py:1070 | each slot holds the last mark written to it |
| SedonaConsultas.UltimaMarcaEsOcupante | sedona.py:1053-1070 | the last mark of the loop order is the occupant: the last section, in day-major loop order, that uses the room at that slot |
| SedonaConsultas.DisponibilidadContenido | sedona.py:1040-1074 | a room is indexed iff some slot has an occupant, its table covers every slot, and each slot holds that occupant's "code paralelo" |
| SedonaConsultas.MarcarCelda | sedona.py:1061-1070 | the cell step is the fold over that cell's mark |
| SedonaConsultas.MarcarSeccion | sedona.py:1055-1070 | the section loops are the fold over its marks |
| SedonaConsultas.MarcarAsignatura | sedona.py:1054-1070 | the subject loop fails, as `horario[bloqueIdx][diaIdx]` raises IndexError, iff some section's timetable is smaller than 10 × 7; otherwise it is the fold over its sections' marks |
| SedonaConsultas.IndexablesPorAsignatura | sedona.py:1054-1070 | every stored timetable covers the grid iff every subject's sections do |
| SedonaConsultas.EnumerarSalas | sedona.py:1040-1074 | the loops fail (IndexError) iff some stored section's timetable is smaller than 10 × 7, for instance the empty one a row without classes leaves; otherwise the index they build is Disponibilidad of the stored subjects |
| SedonaConsultas.Coincidentes | sedona.py:1077-1081 | a room is found iff its lowercase name contains the lowercase term |
| SedonaConsultas.EnumerarSalasBuscando | sedona.py:1040-1083 | fails exactly when EnumerarSalas does; otherwise an absent or empty term returns only the index, and any other term the rooms matching it, in index order |
| SedonaConsultas.SalaDisponibleEnBloquesConsecutivos | sedona.py:1168-1173 | a room is free iff none of the n blocks from the first has an occupant |
| SedonaConsultas.EncontrarSalasDisponiblesEnDiaHora | sedona.py:1176-1189 | fails exactly when EnumerarSalas does; otherwise occupied and free rooms split the indexed rooms, and free means free in all n blocks |
| SedonaConsultas.OcupanteFueraDeRango | sedona.py:1171 | a slot outside the grid never has an occupant, so `.get` reads it as free |
| SedonaConsultas.OcupanteNoVacio | sedona.py:1063 | an occupant is always a non-empty "code paralelo" mark |
| SedonaConsultas.ConsultaEsOcupante | sedona.py:1171 | looking up a slot of the index gives that slot's occupant |
| SedonaConsultas.OcupadaSiAlgunaSeccion | sedona.py:1168-1173 | a room is not free in the requested blocks iff some section uses it at one of them |
| PiedmontScrape.ContadorInicio | piedmont/piedmont-webscraper.py:458-460 | resuming starts one row after the checkpoint's counter; no checkpoint starts at 0 |
| PiedmontScrape.AgregarSeccion | piedmont/piedmont-webscraper.py:563-588 | adding a row fails iff its popup fails and keeps the tree well formed |
| PiedmontScrape.UnaSeccionPorFila | piedmont/piedmont-webscraper.py:563-597 | each row appends exactly one section to its code, or to the carried code (None before any code), with the carried name and department when its own are blank, and leaves every other code alone |
| PiedmontScrape.Persistir | piedmont/piedmont-webscraper.py:600-601 | the checkpoint moves only to the current row, and only after the JSON snapshot was saved |
| PiedmontScrape.PasoFila | piedmont/piedmont-webscraper.py:533-611 | a step never loses well-formedness or moves the counter back; a new checkpoint is this row's and follows a saved snapshot |
| PiedmontScrape.AvanzarFila | piedmont/piedmont-webscraper.py:533-611 | the loop body for one row computes PasoFila |
| PiedmontScrape.Recorrer | piedmont/piedmont-webscraper.py:533-611 | the walk keeps the tree well formed and never moves the counter back |
| PiedmontScrape.RecorrerUnPaso | piedmont/piedmont-webscraper.py:533-611 | walking rows is one row step followed by the walk of the rest, stopping at the first failure |
| PiedmontScrape.SaltoInicial | piedmont/piedmont-webscraper.py:535-537 | rows before the resume point only advance the counter |
| PiedmontScrape.FallaRapida | piedmont/piedmont-webscraper.py:573-577 | a failing popup fails the whole scrape at once |
| PiedmontScrape.CheckpointTrasJson | piedmont/piedmont-webscraper.py:599-603 | any checkpoint the walk leaves names a row it processed whose snapshot was saved |
| PiedmontScrape.ProcesarFila | piedmont/piedmont-webscraper.py:544-597 | the row method computes AgregarSeccion on the popup of the current counter |
| PiedmontScrape.ScrapingSiga | piedmont/piedmont-webscraper.py:434-626 | the scrape succeeds iff the walk from the resume point, on the kept tree, does, and then returns its state |
| PiedmontScrape.CargarEstado | piedmont/piedmont-webscraper.py:646-668 | a checkpoint is used iff the file exists and matches campus and period; a mismatching file is deleted |
| PiedmontScrape.GuardarCargar | piedmont/piedmont-webscraper.py:632-661 | saving a checkpoint at row n and loading it back resumes at row n+1 |
| PiedmontScrape.NombreCampus | piedmont/piedmont-webscraper.py:491-492 | the name is "Desconocido" exactly for codes outside 1, 4, 7, 2, 3 |
| PiedmontScrape.Caminata | piedmont/piedmont-webscraper.py:434-626 | a completed attempt yields a well-formed tree |
| PiedmontScrape.Reintentar | piedmont/piedmont-webscraper.py:754-776 | a completed cycle is an attempt i ≤ 5 whose import succeeded; otherwise all the remaining attempts were made |
| PiedmontScrape.ReintentarPaso | piedmont/piedmont-webscraper.py:758-772 | one attempt: success with a successful import stops; a failed import retries with the tree kept and no checkpoint; a failed scrape retries with the checkpoint kept and the tree dropped |
| PiedmontScrape.PrepararTodo | piedmont/piedmont-webscraper.py:749-776 | the retry loop computes Reintentar from the loaded checkpoint and its snapshot |
| PiedmontScrape.Intentar | piedmont/piedmont-webscraper.py:754-776 | the `for` loop over attempts 1..5 computes Reintentar from the first attempt's checkpoint and tree |
| PiedmontScrape.ReanudaSinArbol | piedmont/piedmont-webscraper.py:758-772 | as written: after a failed attempt the second attempt resumes from the checkpoint with no tree, and the run completes with an empty tree (finding at piedmont/piedmont-webscraper.py:758-772) |
| PiedmontScrape.ReintentarCorregido | piedmont/piedmont-webscraper.py:754-776 | the corrected loop has the same bounds as the original |
| PiedmontScrape.ReanudaConSuArbol | piedmont/piedmont-webscraper.py:758-772 | in the corrected loop, only the first attempt resumes from a checkpoint, and it has the checkpoint's tree |
| PiedmontImport.LimpiarProfesor | piedmont/piedmont-webscraper.py:124 | a cleaned name is trimmed and no longer than the original |
| PiedmontImport.LimpiarProfesorSinNull | piedmont/piedmont-webscraper.py:124 | a name without " null" is only trimmed |
| PiedmontImport.QuitarSala | piedmont/piedmont-webscraper.py:164-166 | a leading "Sala " is dropped and nothing else |
| PiedmontImport.FilasHorarioContenido | piedmont/piedmont-webscraper.py:160-178 | a schedule row is inserted iff some non-blank cell (b, d) gives it: day d+1, block b+1, the cell trimmed without "Sala " |
| PiedmontImport.CeldaHorarioContenido | piedmont/piedmont-webscraper.py:162-178 | one cell inserts exactly the rows EsFilaDe allows: nothing for a blank cell, one row (day, block, room) otherwise |
| PiedmontImport.InsertarBloque | piedmont/piedmont-webscraper.py:161-178 | the day loop appends that block's rows |
| PiedmontImport.InsertarHorario | piedmont/piedmont-webscraper.py:160-178 | the block loop appends the rows of the whole matrix |
| PiedmontImport.CargarCacheProfesores | piedmont/piedmont-webscraper.py:65-66 | the cache maps each stored name to its id and knows no other name |
| PiedmontImport.PasoProfesorPropiedades | piedmont/piedmont-webscraper.py:123-141 | one name: the section is linked to it when non-empty, a cached name inserts nothing, and nothing else is linked |
| PiedmontImport.VincularTodosValida | piedmont/piedmont-webscraper.py:123-141 | the professor loop keeps the tables valid, only grows them and links nothing but this section |
| PiedmontImport.VincularTodosEnlaza | piedmont/piedmont-webscraper.py:123-141 | every non-empty name of the list ends linked to the section |
| PiedmontImport.NombreCacheadoNoSeInserta | piedmont/piedmont-webscraper.py:130-136 | names already cached add no profesor row |
| PiedmontImport.VincularTodosLiga | piedmont/piedmont-webscraper.py:126-133 | profesor_id ends bound iff it was bound before or some cleaned name is non-empty |
| PiedmontImport.VincularProfesores | piedmont/piedmont-webscraper.py:123-141 | the loop keeps the tables valid and only grows them, links every non-empty name, and binds profesor_id iff some name was non-empty |
| PiedmontImport.UpsertParalelo | piedmont/piedmont-webscraper.py:108-120 | an existing (subject, paralelo) row is updated in place under its id, otherwise a new id is taken; nothing else changes |
| PiedmontImport.ReemplazarParalelo | piedmont/piedmont-webscraper.py:109-118 | updating a row under its own (subject, paralelo) key keeps the schema valid |
| PiedmontImport.AltaParalelo | piedmont/piedmont-webscraper.py:109-118 | inserting a (subject, paralelo) key not yet present keeps the schema valid |
| PiedmontImport.RegistrarSeccion | piedmont/piedmont-webscraper.py:108-141 | the section row is stored and every non-empty professor name is linked to it |
| PiedmontImport.ProcesarParalelo | piedmont/piedmont-webscraper.py:107-178 | the section succeeds iff profesor_id is bound or the matrix is empty, and then the schedule rows are appended twice |
| PiedmontImport.ProcesarSecciones | piedmont/piedmont-webscraper.py:107-178 | the sections succeed iff none hits the unbound profesor_id, and then every section's paralelo is stored under the subject |
| PiedmontImport.LigadoTrasExiste | piedmont/piedmont-webscraper.py:107-157 | after a run of sections profesor_id is bound iff it was before or some section has a non-empty professor name |
| PiedmontImport.LigadoNoFalla | piedmont/piedmont-webscraper.py:143-157 | once profesor_id is bound no section can fail on it |
| PiedmontImport.CargarCacheAsignaturas | piedmont/piedmont-webscraper.py:87-88 | the cache maps exactly the codes of the semester's subjects to their ids |
| PiedmontImport.BuscarOCrearAsignatura | piedmont/piedmont-webscraper.py:90-104 | a cached code reuses its id; a new code inserts a subject with the first section's name and department |
| PiedmontImport.ProcesarAsignatura | piedmont/piedmont-webscraper.py:90-178 | a subject succeeds iff it has sections and none fails, and then all of them are stored under its id |
| PiedmontImport.CodigoSemestre | piedmont/piedmont-webscraper.py:74 | the code has six characters with '-' at position 4 |
| PiedmontImport.CodigoSemestreInyectivo | piedmont/piedmont-webscraper.py:74 | two five-character keys give the same code only if they are equal |
| PiedmontImport.CodigoDelSemestreActual | piedmont/piedmont-webscraper.py:701-704 | the current semester's key becomes "year-half" |
| PiedmontImport.BuscarOCrearSemestre | piedmont/piedmont-webscraper.py:76-84 | the semestre (campus, code) is found or inserted once |
| PiedmontImport.ProcesarRamos | piedmont/piedmont-webscraper.py:90-178 | the subject loop succeeds iff no subject fails, and then every subject is imported |
| PiedmontImport.ProcesarSemestre | piedmont/piedmont-webscraper.py:72-178 | a period succeeds iff its key has at least five characters and no subject fails, and then it is imported |
| PiedmontImport.BuscarOCrearCampus | piedmont/piedmont-webscraper.py:46-58 | the campus row with that name is found or inserted, and it is the only one with that name |
| PiedmontImport.ProcesarPeriodos | piedmont/piedmont-webscraper.py:72-178 | the period loop succeeds iff no period fails, and then all periods are imported |
| PiedmontImport.InsertarJsonHaciaBDD | piedmont/piedmont-webscraper.py:37-178 | the import keeps the schema valid and only grows it; it succeeds iff no period fails, and then every period, subject and section of the campus is stored |
| PiedmontConexion.HorariosRestantes | piedmont/piedmont-webscraper.py:226 | the schedule rows that survive the delete are exactly those of other semesters |
| PiedmontConexion.BorradoEnCascada | piedmont/piedmont-webscraper.py:223-228 | deleting a semestre keeps the schema valid and touches no campus or professor |
| PiedmontConexion.BorrarSemestre | piedmont/piedmont-webscraper.py:223-228 | after the delete no semester sid, no subject of it and no section of such a subject is left; campus, professors and the id counter are untouched |
| PiedmontConexion.BorradoExacto | piedmont/piedmont-webscraper.py:226 | the delete removes exactly that semester's subjects, sections, links and schedule rows and keeps the rest unchanged |
| PiedmontConexion.SoloUnSemestre | piedmont/piedmont-webscraper.py:219-228 | after the delete no semestre of that campus and code is left |
| PiedmontConexion.PrepararConexionBDD | piedmont/piedmont-webscraper.py:180-257 | no connection, no data, or an uncaught error each give their outcome; a commit stores the first campus and replaces that one semester: other semesters and subjects kept, the old subjects gone, the new ones all fresh |
| PiedmontConexion.ReemplazoCompleto | piedmont/piedmont-webscraper.py:208-231 | find-or-create campus, the delete and the import together replace exactly one semester |
| PiedmontConexion.Conservados | piedmont/piedmont-webscraper.py:220-234 | every other semester, and every subject of one, survives the replacement unchanged |
| PiedmontConexion.Descartados | piedmont/piedmont-webscraper.py:220-228 | no old subject of the replaced semester survives |
| PiedmontConexion.SinMezcla | piedmont/piedmont-webscraper.py:220-234 | every subject of the replaced semester afterwards is new |
| PiedmontConexion.NoVuelve | piedmont/piedmont-webscraper.py:220-234 | a subject kept by the delete does not belong to the replaced semester afterwards |
| PiedmontConfig.Entrada | piedmont/piedmont-webscraper.py:294-297 | a line is an entry iff its stripped text has '=' and does not start with '#'; key and value are trimmed |
| PiedmontConfig.EntradaClaveSinIgual | piedmont/piedmont-webscraper.py:296 | the key stops at the first '=' |
| PiedmontConfig.EntradaDeLinea | piedmont/piedmont-webscraper.py:294-297 | "clave=valor" reads back as (clave, valor) |
| PiedmontConfig.ConfigUltima | piedmont/piedmont-webscraper.py:293-297 | a key is set iff some line sets it, and its value is the value of the last line that does |
| PiedmontConfig.PlegarPresente | piedmont/piedmont-webscraper.py:293-297 | a key is in the folded map iff some entry sets it |
| PiedmontConfig.PlegarUltima | piedmont/piedmont-webscraper.py:293-297 | the folded value is the value of the last entry that sets the key |
| PiedmontConfig.CargarConfigBDD | piedmont/piedmont-webscraper.py:283-308 | an unreadable file or a missing host, user, password or database gives None; otherwise the parsed map |
| PiedmontConfig.NoVacias | piedmont/piedmont-webscraper.py:271 | the kept lines are trimmed and non-empty |
| PiedmontConfig.NoVaciasBlancas | piedmont/piedmont-webscraper.py:271 | leading blank lines are skipped |
| PiedmontConfig.CargarCredenciales | piedmont/piedmont-webscraper.py:262-281 | both credentials are present iff the file has at least two non-blank lines; they are trimmed and non-empty |
| PiedmontConfig.CredencialesLeidas | piedmont/piedmont-webscraper.py:271-277 | user and password are the first two non-blank lines, whatever blank lines separate them |
| SedonaWeb.Llena | sedona/buscar_salas.php:117 | the filled table is 10 × 7 with that value everywhere |
| SedonaWeb.Poner | sedona/buscar_salas.php:129 | assigning a cell changes only that cell |
| SedonaWeb.QuitarPrefijoSala | sedona/buscar_salas_vacias.php:167 | the link drops a leading "sala" (any case) and the blanks after it, or leaves the name alone |
| SedonaWeb.EnlaceDeCelda | sedona/buscar_asignaturas.php:262-288 | a cell written as 'Sala ' . sala links back to sala |
| SedonaWeb.EnlaceSinPrefijo | sedona/buscar_asignaturas.php:286 | a name whose fifth character is not a blank links to itself |
| SedonaWeb.EtiquetasDistintas | sedona/buscar_salas_vacias.php:157 | two block indices with the same label are equal |
| SedonaWeb.EtiquetasExtremas | sedona/buscar_salas.php:163 | the labels run from "1-2" to "19-20" |
| BuscarAsignaturas.NormalizarExacto | sedona/buscar_asignaturas.php:20-22 | the result has only lowercase letters and digits |
| BuscarAsignaturas.ExactoComoFiltro | sedona/buscar_asignaturas.php:21 | it keeps exactly the letters and digits, lowercased, in order |
| BuscarAsignaturas.ExactoIdempotente | sedona/buscar_asignaturas.php:20-22 | normalising twice is normalising once |
| BuscarAsignaturas.PartirBlancos | sedona/buscar_asignaturas.php:32 | the pieces hold no whitespace, and no upper-case letter when the text holds none |
| BuscarAsignaturas.PartirJoin | sedona/buscar_asignaturas.php:32-33 | splitting words joined by single spaces gives the words back |
| BuscarAsignaturas.NormalizarTexto | sedona/buscar_asignaturas.php:30-34 | the pattern is wrapped in '%' and has no whitespace or uppercase letter |
| BuscarAsignaturas.TextoDePalabras | sedona/buscar_asignaturas.php:30-34 | words separated by spaces become "%w1%w2%…%" |
| BuscarAsignaturas.OcultarVacios | sedona/buscar_asignaturas.php:47-50 | hiding is on iff the parameter, after the boolean filter's own trim (blanks, tabs and line ends, but not NUL), is one of PHP's true spellings in any case |
| BuscarAsignaturas.OcultarVaciosBordes | sedona/buscar_asignaturas.php:47-50 | "yes" followed by NUL is not read as true, while " Yes" followed by a newline is |
| BuscarAsignaturas.CargarParametros | sedona/buscar_asignaturas.php:41-62 | the parameters load iff code, campus and semester are all truthy, and then they are returned unchanged |
| BuscarAsignaturas.ParametrosEjemplos | sedona/buscar_asignaturas.php:47-54 | a missing or "0" code is rejected; "yes" hides empty rows, "maybe" does not |
| BuscarAsignaturas.DetectarParalelo | sedona/buscar_asignaturas.php:76 | a match is a token, then separators, then a maximal run of digits, at the start |
| BuscarAsignaturas.FormaDetectada | sedona/buscar_asignaturas.php:76 | every text of that form is detected |
| BuscarAsignaturas.FiltroBusqueda | sedona/buscar_asignaturas.php:105-119 | a "CODE-paralelo" search filters by the normalised code and the whole maximal run of digits after the separators, any other by the text pattern |
| BuscarAsignaturas.FiltroParaleloEntero | sedona/buscar_asignaturas.php:105-109 | a search made of a code, separators and digits up to its end filters by exactly that code and all of those digits, so the prefix match of the section is never widened |
| BuscarAsignaturas.FormaUnica | sedona/buscar_asignaturas.php:105-109 | a search splits into code, separators and a maximal digit run in one way only |
| BuscarAsignaturas.ImplodeExplode | sedona/buscar_asignaturas.php:169 | joining the professor list back with ", " gives the original text |
| BuscarAsignaturas.ListaProfesores | sedona/buscar_asignaturas.php:169 | the list is non-empty and joins back to the column, NULL read as "" |
| BuscarAsignaturas.ConRamo | sedona/buscar_asignaturas.php:158-164 | a subject is created once, from its first row, and the others are untouched |
| BuscarAsignaturas.ConSeccion | sedona/buscar_asignaturas.php:166-172 | a section is created once, from its first row, and the others are untouched |
| BuscarAsignaturas.ConClase | sedona/buscar_asignaturas.php:174-180 | a row with a day and block appends one class to its section and changes nothing else |
| BuscarAsignaturas.AgruparResultados | sedona/buscar_asignaturas.php:155-181 | the grouping loop computes Agrupar of the rows |
| BuscarAsignaturas.AgruparBienFormada | sedona/buscar_asignaturas.php:155-181 | the grouping keeps keys and first-seen orders consistent |
| BuscarAsignaturas.AgruparRamos | sedona/buscar_asignaturas.php:157-164 | a subject appears iff some row has its code |
| BuscarAsignaturas.AgruparSecciones | sedona/buscar_asignaturas.php:166-172 | a section appears iff some row has its code and paralelo |
| BuscarAsignaturas.PrimerRamo | sedona/buscar_asignaturas.php:158-164 | a subject's name and department are those of its first row |
| BuscarAsignaturas.PrimeraSeccion | sedona/buscar_asignaturas.php:166-172 | a section's cupos and professors are those of its first row |
| BuscarAsignaturas.HorarioAgrupado | sedona/buscar_asignaturas.php:174-180 | a section's schedule is its rows with a day and block, in row order |
| BuscarAsignaturas.TextoSala | sedona/buscar_asignaturas.php:262 | a filled cell starts with "Sala " |
| BuscarAsignaturas.LlenarTabla | sedona/buscar_asignaturas.php:257-263 | the loop computes Tabla of the classes |
| BuscarAsignaturas.TablaCelda | sedona/buscar_asignaturas.php:259-263 | the last class overwrites its cell |
| BuscarAsignaturas.UltimaGana | sedona/buscar_asignaturas.php:257-263 | a cell is empty iff no class falls on it, and otherwise holds the room of the last class that does |
| BuscarAsignaturas.FilasMostradas | sedona/buscar_asignaturas.php:275-298 | the loop computes the rows shown, with their labels |
| BuscarAsignaturas.TodasMostradas | sedona/buscar_asignaturas.php:275-282 | without hiding, all ten rows are shown with labels "1-2" … "19-20" |
| BuscarAsignaturas.OcultasVacias | sedona/buscar_asignaturas.php:279 | with hiding, a row is shown iff some cell of it is non-empty |
| BuscarAsignaturas.EtiquetaPosterior | sedona/buscar_asignaturas.php:275-298 | with hiding, the rows shown from block i on carry no label of an earlier block |
| BuscarAsignaturas.FilaConClases | sedona/buscar_asignaturas.php:257-279 | with hiding, block k is shown iff some class has block k+1 and a day in 1..7 |
| BuscarSalas.CargarParametros | sedona/buscar_salas.php:22-38 | the parameters load iff room, campus and semester are all truthy, and then they are returned unchanged |
| BuscarSalas.QuitarSufijo | sedona/buscar_salas.php:49 | removing the suffix leaves a prefix of the name |
| BuscarSalas.LargoSufijo | sedona/buscar_salas.php:49 | the suffix word is SJ, Campus or Laboratorio in any case, or none |
| BuscarSalas.CoincideDesde | sedona/buscar_salas.php:49 | the pattern matches from p iff a suffix word ends the text and only padding lies between p and it |
| BuscarSalas.QuitarSufijoCorrecto | sedona/buscar_salas.php:49 | the cut is the leftmost position where the pattern matches, and no cut is made where it matches nowhere |
| BuscarSalas.ObtenerBaseSala | sedona/buscar_salas.php:47-63 | the base a room is grouped under is a contiguous piece of its name |
| BuscarSalas.BaseSalaLab | sedona/buscar_salas.php:52-53 | with a "LAB" token, the base is the first one, up to the end of its word |
| BuscarSalas.BaseSalaPalabra | sedona/buscar_salas.php:56-57 | without one, the word before the first " LAB" is the base |
| BuscarSalas.BaseSalaAlfanumerica | sedona/buscar_salas.php:60-61 | otherwise the base is the letters and digits before the first other character |
| BuscarSalas.SinSufijo | sedona/buscar_salas.php:49 | a name that matches no suffix is left whole |
| BuscarSalas.SinDuplicados | sedona/buscar_salas.php:127-135 | deduplication never adds entries |
| BuscarSalas.EjemploDocumentado | sedona/buscar_salas.php:42-57 | "B008 LAB-MEC" groups as "LAB-MEC", not as the "B008" of the doc comment |
| BuscarSalas.EjemploPalabraLab | sedona/buscar_salas.php:56-57 | "B008 LAB" groups as "B008" |
| BuscarSalas.SinDuplicadosUnicas | sedona/buscar_salas.php:127-135 | a cell never lists the same "code-paralelo" twice |
| BuscarSalas.SinDuplicadosClaves | sedona/buscar_salas.php:127-135 | every key of the rows is still listed |
| BuscarSalas.SinDuplicadosPrimeras | sedona/buscar_salas.php:128-134 | each listed entry is the first row with its key |
| BuscarSalas.SinDuplicadosOrden | sedona/buscar_salas.php:128-134 | entries keep the order of their first rows |
| BuscarSalas.LlenarHorarioSala | sedona/buscar_salas.php:117-136 | the loop fails iff some row falls outside the grid; otherwise each cell lists its rows' entries once per key |
| BuscarSalas.AgruparPorSala | sedona/buscar_salas.php:208-214 | the loop computes Grupos of the rows |
| BuscarSalas.GruposPaso | sedona/buscar_salas.php:210-214 | one row appends itself to its base's group and renames the group after its room |
| BuscarSalas.GrupoDe | sedona/buscar_salas.php:208-214 | the group of one base holds exactly that base's rows in order, named after the last one |
| BuscarSalas.GruposCorrectos | sedona/buscar_salas.php:208-214 | a base has a group iff some row has it, the group holds exactly those rows in order, and its name is the room of the last one |
| BuscarSalasVacias.CargarParametros | sedona/buscar_salas_vacias.php:21-47 | as written: loads iff campus and semester are truthy, the day is in 1..7 and the block list is a non-empty array; an out-of-range block becomes block 0 |
| BuscarSalasVacias.CargarParametrosCorregido | sedona/buscar_salas_vacias.php:32-39 | corrected: also rejects any block outside 0..9, and keeps the blocks exactly |
| BuscarSalasVacias.CorregidoCoincide | sedona/buscar_salas_vacias.php:21-47 | where the corrected loader accepts, both loaders agree |
| BuscarSalasVacias.BloqueFueraDeRango | sedona/buscar_salas_vacias.php:32-39 | bloques=[12] is accepted as written and shown as block "1-2"; the corrected loader rejects it (finding at sedona/buscar_salas_vacias.php:32-39) |
| BuscarSalasVacias.ObtenerMapaOcupacion | sedona/buscar_salas_vacias.php:110-118 | the loop computes MapaDe of the rows |
| BuscarSalasVacias.MapaCorrecto | sedona/buscar_salas_vacias.php:113-116 | a room is in the map iff it has a row, and its list is its blocks in row order |
| BuscarSalasVacias.BloquesDeFilas | sedona/buscar_salas_vacias.php:113-116 | a block is in a room's list iff some row gives that room that block |
| BuscarSalasVacias.OcupadaSegunFilas | sedona/buscar_salas_vacias.php:182-185 | a requested block b is occupied iff some row of the day has that room and block b+1 |
| BuscarSalasVacias.SinFilasLibre | sedona/buscar_salas_vacias.php:185 | a room without rows is free everywhere |
| BuscarSalasVacias.CeldasDeSala | sedona/buscar_salas_vacias.php:180-191 | one cell per requested block, occupied iff Ocupada |
| BuscarSalasVacias.GenerarTablaResultados | sedona/buscar_salas_vacias.php:132-196 | the header is the requested blocks' labels, and there is one row per room with its link and its cells |
| BuscarSalasVacias.RangosDistintos | sedona/buscar_salas_vacias.php:156-158 | two header labels are equal iff their blocks are |
| Autofill.DiaPHP | sedona/js/api.js:108 | Sunday (0) becomes 7 and the other days keep their number, always in 1..7 |
| Autofill.DiaPHPInyectivo | sedona/js/api.js:108 | different weekdays give different days |
| Autofill.OrdenadosComoEscritos | sedona/js/api.js:110-121 | the table as written has ten ordered, disjoint blocks from 495 to 1375 |
| Autofill.OrdenadosCorregidos | sedona/js/api.js:110-121 | the corrected table is ordered too, and every block lasts 70 minutes |
| Autofill.Creciente | sedona/js/api.js:110-121 | in an ordered table each block ends before any later one starts |
| Autofill.SinSolape | sedona/js/api.js:110-126 | in an ordered table a time lies within at most one block |
| Autofill.PrimerBloque | sedona/js/api.js:123-134 | the choice is the first block the time falls in, or whose preceding gap it falls in; -1 iff there is none |
| Autofill.BloqueActual | sedona/js/api.js:123-134 | the loop with its breaks computes PrimerBloque |
| Autofill.EleccionUnica | sedona/js/api.js:126-133 | in an ordered table at most one block qualifies |
| Autofill.EnSuBloque | sedona/js/api.js:126 | a time inside block i selects i |
| Autofill.EnElHueco | sedona/js/api.js:130 | a time in the gap before block i selects i |
| Autofill.AlgunoElegido | sedona/js/api.js:123-134 | every time from the first start to the last end selects some block |
| Autofill.AntesDeTodo | sedona/js/api.js:126-133 | a time before the first start selects no block |
| Autofill.DespuesDeTodo | sedona/js/api.js:126-133 | a time after the last end selects no block |
| Autofill.SinBloque | sedona/js/api.js:123-139 | "no classes now" iff the time is before the first start or after the last end |
| Autofill.SinClases | sedona/js/api.js:110-139 | for both tables that means before 8:15 (495) or after 22:55 (1375) |
| Autofill.HuecoComoEscrito | sedona/js/api.js:112 | as written, 10:30 (630) selects block 2 although block 1 runs until 10:50 (finding at sedona/js/api.js:112) |
| Autofill.BloqueCorregido | sedona/js/api.js:110-134 | with the corrected table, any time within a block's 70 minutes selects that block |
| Autofill.HuecoCorregido | sedona/js/api.js:112-126 | with the corrected table, 10:30 selects block 1 |
| Autofill.Formulario.constructor | sedona/js/api.js:94-97 | the form starts with the given selections, not submitted and without an alert |
| Autofill.Formulario.Autocompletar | sedona/js/api.js:100-146 | without a campus and enabled semester, or outside class hours, only an alert; otherwise the day is set, exactly the checkbox of the block the table as written chooses is ticked and the form is submitted |
| Autofill.Formulario.SeleccionarTodos | sedona/js/api.js:150-155 | every checkbox is ticked and nothing else changes |
| Autofill.EjemploMiercoles | sedona/js/api.js:106-145 | at 10:00 on a Wednesday the form asks for day 3 and ticks only block 1 |
| Autofill.EjemploHueco | sedona/js/api.js:106-145 | at 10:30 on a Wednesday the form, as written, ticks only block 2 (finding at sedona/js/api.js:112) |

## Findings

| source | as written | input that shows it | evidently intended | confidence | as-written member | corrected member |
|---|---|---|---|---|---|---|
| sedona/js/api.js:112 | the second block is `{ inicio: 580, fin: 615 }`, which ends at 10:15 | 10:30 (minute 630): the loop treats it as the gap before block 2 and ticks block "5-6" | every other block lasts 70 minutes, and sedona.py:942 and buscar_salas.php:156 list 9:40 - 10:50; so `fin: 650`. buscar_asignaturas.php:251 repeats 10.15, hence medium confidence | medium, not executed | Autofill.HuecoComoEscrito, Autofill.EjemploHueco | Autofill.BloqueCorregido, Autofill.HuecoCorregido |
| sedona/buscar_salas_vacias.php:32-39 | FILTER_REQUIRE_ARRAY turns each invalid or out-of-range element into false, yet the array stays truthy and passes the check | bloques[]=12: accepted; false counts as block 0, shown as "1-2" and checked against block 1 | reject the request unless every block is an integer in 0..9, as the comment at line 31 says | high, not executed | BuscarSalasVacias.BloqueFueraDeRango | BuscarSalasVacias.CargarParametrosCorregido, BuscarSalasVacias.CorregidoCoincide |
| piedmont/piedmont-webscraper.py:758-772 | after a failed scrape the tree is dropped (`baseDatosGlobal = None`) but `estadoPrevio` keeps the checkpoint, and cargarEstado (646-661) is not called again | a checkpoint at row 0 over a tree with one subject, and a first attempt whose popup fails: attempt 2 resumes at row 1 on an empty tree and imports it | a retry that resumes from a checkpoint also reloads that checkpoint's tree (or does not resume) | high, not executed | PiedmontScrape.ReanudaSinArbol | PiedmontScrape.ReintentarCorregido, PiedmontScrape.ReanudaConSuArbol |

## Left out

- Browser navigation (Selenium clicks, frames, windows, waits, the captcha pause) is not modelled. Each popup round trip is a given function from the row counter to the popup's data or a failure.
- File I/O is not modelled. The JSON snapshot, the checkpoint file and `ultima_act_bdd.txt` are given success functions or plain values, and the configuration readers take the file's lines.
- SQL and PDO are not modelled. Query results are inputs, and the MySQL schema is a record of maps with ON DELETE CASCADE and INSERT IGNORE written out. GROUP_CONCAT, LIKE matching and `ORDER BY` are left to the database.
- HTML output is not modelled: `echo`, `htmlspecialchars`, `http_build_query`, the day-name badges and the hour captions of the tables. FILTER_SANITIZE_SPECIAL_CHARS is taken as returning its input.
- Sorting is not modelled. `ksort` (buscar_salas.php:217) and `natsort` (buscar_salas_vacias.php:163) only reorder the output, and the model keeps rooms and groups in input order.
- The integer syntax FILTER_VALIDATE_INT accepts is not modelled. The parsed integer, or its absence, is the input.
- PHP's loose `in_array` comparison is modelled as equality. It compares strings with strings (buscar_salas.php:128) and integers with integers (buscar_salas_vacias.php:185).
- `.` in the regular expressions of buscar_salas.php is treated as matching any character, because room names hold no newline.
- BuscarAsignaturas.LlenarTabla: a class whose block or day lies outside 1..10 × 1..7 is dropped. PHP would add an extra row or column to `$tabla_horario`.
- The request flow of the three pages is not modelled: the `isset` guards, the top-level try/catch and the error message.
- api.js's DOM lookups, `fetch` calls and the campus and semester loaders are not modelled. Checkbox values are the numbers 0..9, compared with `==`.
- Clocks and dates are parameters: `datetime.now()` and `new Date()`.
- `segundosAMinutos` and the elapsed-time messages are not modelled, because they are floating point and display only.
- Console menus, prompts, colours, the update checker, the `mostrar*` pretty-printers and the period prompt's validation in `prepararScraping` are not modelled.
- Piedmont's debug `limite` is not modelled, because it is 0 and the break is never taken.
- PiedmontScrape.PrepararTodo: the import's outcome is a yes/no function of the attempt. An uncaught exception in the import ends the program in the source, and the model does not tell it apart from a caught failure.
- PiedmontImport.InsertarJsonHaciaBDD: only the first campus of the data is imported, as in the source. The caches are maps rather than MySQL reads.
- PDO::FETCH_GROUP is not modelled separately. It is folded into the map loop of `obtener_mapa_ocupacion` (BuscarSalasVacias.ObtenerMapaOcupacion).
- SedonaConsultas.Coincidentes: only the ASCII capitals A-Z are lower-cased. Python's `str.lower()` folds every Unicode capital, so a search for "É" finds "é" in the source and not in the model.
- SedonaConsultas.EnumerarSalasBuscando: the search inherits that ASCII-only lower-casing from Coincidentes.
- The piedmont scraper names campus "2" "Vitacura" (line 491), while sedona.py and the menu name it "Santiago Vitacura". Each module keeps its own table.
